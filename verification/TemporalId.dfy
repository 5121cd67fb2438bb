/** Stable identifiers of clocks and calendars. */
module TemporalId {

  const ID_CAPACITY: nat := 64

  predicate IsIdLetter(c: char) { 'a' <= c <= 'z' || '0' <= c <= '9' }

  /** What the validator accepts: letters, digits and inner hyphens that fit the capacity. */
  predicate IdValid(id: string) {
    && 0 < |id| < ID_CAPACITY
    && (forall i :: 0 <= i < |id| ==> IsIdLetter(id[i]) || id[i] == '-')
    && id[0] != '-' && id[|id| - 1] != '-'
  }

  /** infiltratr_temporal_id_valid. */
  method Validate(id: string) returns (valid: bool)
    ensures valid <==> IdValid(id)
  {
    hide IsIdLetter;
    if id == "" {
      return false;
    }
    var length := 0;
    while length < |id|
      invariant length <= |id| && length < ID_CAPACITY
      invariant forall i :: 0 <= i < length ==> IsIdLetter(id[i]) || id[i] == '-'
      invariant length > 0 ==> id[0] != '-'
    {
      var value := id[length];
      var ok := IsIdLetter(value) || (value == '-' && length != 0);
      LetterIsNoHyphen(value);
      if !ok || length + 1 >= ID_CAPACITY {
        return false;
      }
      length := length + 1;
    }
    valid := id[length - 1] != '-';
  }

  lemma LetterIsNoHyphen(c: char)
    ensures IsIdLetter(c) ==> c != '-'
  {
  }

  /** What the documentation asks for: words of letters and digits separated by single hyphens. */
  predicate IsWords(id: string) {
    && id != "" && id[0] != '-' && id[|id| - 1] != '-'
    && (forall i :: 0 <= i < |id| ==> 'a' <= id[i] <= 'z' || '0' <= id[i] <= '9' || id[i] == '-')
    && forall i :: 0 < i < |id| ==> !DoubledAt(id, i)
  }

  predicate DoubledAt(id: string, i: nat)
    requires 0 < i < |id|
  {
    id[i - 1] == '-' && id[i] == '-'
  }

  /** The validator is as strict as its documentation exactly on identifiers without doubled hyphens. */
  lemma ValidatorMeetsDocumentation(id: string)
    ensures IsWords(id) && |id| < 64 <==> IdValid(id) && forall i :: 0 < i < |id| ==> !DoubledAt(id, i)
  {
  }

  /** It accepts some that the documentation excludes. */
  lemma DoubledHyphenAccepted()
    ensures IdValid("a--b") && !IsWords("a--b")
  {
    assert DoubledAt("a--b", 2);
  }
}
