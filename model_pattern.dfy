/** Drive model-name patterns: the allow-list of drives whose temperature can be
    read with the vendor command, and the single-character wildcard matcher. */
module ModelPattern {

  /** The character that stands for any one model character. */
  const Wildcard: char := '.'

  /** The allow-list of drive models, in the order the source tries them. */
  const HitachiModels: seq<string> := [
    "HTS4212..H9AT00", "HTS726060M9AT00", "HTS5410..G9AT00", "IC25N0..ATCS04",
    "IC25N0..ATCS05", "IC25T0..ATCS04", "IC25T0..ATCS05", "HTE541040G9AT00",
    "HTS5416..J9AT00", "HTS5416..J9SA00", "HTS54161"]

  /** A model matches a pattern when both have the same length and they agree
      at every position where the pattern is not the wildcard. */
  predicate Matches(model: string, pattern: string) {
    |model| == |pattern| &&
    forall i :: 0 <= i < |pattern| && pattern[i] != Wildcard ==> model[i] == pattern[i]
  }

  /** Some pattern of the list matches the model. */
  predicate MatchesAny(model: string, patterns: seq<string>) {
    exists j :: 0 <= j < |patterns| && Matches(model, patterns[j])
  }

  /** The comparison loop: lengths first, then position by position, skipping
      wildcard positions and stopping at the first mismatch. */
  method CheckModelPattern(model: string, pattern: string) returns (r: bool)
    ensures r == Matches(model, pattern)
    ensures |model| != |pattern| ==> !r
  {
    if |model| != |pattern| {
      return false;
    }
    var i := 0;
    while i < |model|
      invariant 0 <= i <= |model|
      invariant forall k :: 0 <= k < i && pattern[k] != Wildcard ==> model[k] == pattern[k]
    {
      if pattern[i] != Wildcard && model[i] != pattern[i] {
        return false;
      }
      i := i + 1;
    }
    return true;
  }

  /** The search over the allow-list that stops at the first matching pattern;
      stopping early gives the same answer as asking whether any pattern matches. */
  method MatchesAnyPattern(model: string, patterns: seq<string>) returns (found: bool)
    ensures found == MatchesAny(model, patterns)
  {
    found := false;
    var j := 0;
    while j < |patterns|
      invariant 0 <= j <= |patterns|
      invariant !found
      invariant forall k :: 0 <= k < j ==> !Matches(model, patterns[k])
    {
      var m := CheckModelPattern(model, patterns[j]);
      if m {
        found := true;
        break;
      }
      j := j + 1;
    }
  }

  /** Every model matches itself used as a pattern. */
  lemma MatchesItself(model: string)
    ensures Matches(model, model)
  {
  }

  /** A pattern made only of wildcards matches every model of its length. */
  lemma AllWildcardsMatch(model: string, pattern: string)
    requires |model| == |pattern|
    requires forall i :: 0 <= i < |pattern| ==> pattern[i] == Wildcard
    ensures Matches(model, pattern)
  {
  }

  /** A pattern without wildcards matches exactly the model equal to it. */
  lemma LiteralPatternIsEquality(model: string, pattern: string)
    requires Wildcard !in pattern
    ensures Matches(model, pattern) <==> model == pattern
  {
    if Matches(model, pattern) {
      forall i | 0 <= i < |pattern|
        ensures model[i] == pattern[i]
      {
        assert pattern[i] in pattern;
      }
    }
  }

  /** Turning one pattern position into the wildcard never loses a match. */
  lemma WildcardWeakens(model: string, pattern: string, k: nat)
    requires k < |pattern|
    requires Matches(model, pattern)
    ensures Matches(model, pattern[k := Wildcard])
  {
  }

  /** Concrete cases: the wildcards of "HTS5410..G9AT00" admit "HTS541040G9AT00";
      "HTE541040G9AT00" differs at position 2 and "HTS5416..J9AT00" at position 6. */
  lemma MatchExamples()
    ensures Matches("HTS541040G9AT00", "HTS5410..G9AT00")
    ensures !Matches("HTS541040G9AT00", "HTE541040G9AT00")
    ensures !Matches("HTS541040G9AT00", "HTS5416..J9AT00")
    ensures !Matches("HTS541040G9AT0", "HTS5410..G9AT00")
  {
    assert "HTS541040G9AT00"[2] != "HTE541040G9AT00"[2];
    assert "HTS541040G9AT00"[6] != "HTS5416..J9AT00"[6];
  }

  /** "HTS541040G9AT00" is on the allow-list (through its third pattern), and a
      model whose length no pattern has is not. */
  lemma AllowListExamples()
    ensures MatchesAny("HTS541040G9AT00", HitachiModels)
    ensures !MatchesAny("ST9100824A", HitachiModels)
  {
    MatchExamples();
    assert Matches("HTS541040G9AT00", HitachiModels[2]);
  }
}
