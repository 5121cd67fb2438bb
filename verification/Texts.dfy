/** Facts about texts that the solver does not find by itself. */
module Texts {

  lemma Assoc(a: string, b: string, c: string)
    ensures a + (b + c) == (a + b) + c
  {
  }
}
