/** Normalisation of the text read from a drive's sysfs model file: every
    newline is removed in place, then only the text after the last space is kept. */
module ModelName {
  import opened Wrappers

  /** s with every occurrence of c removed, the other characters in order. */
  function Without(s: string, c: char): (r: string)
    ensures c !in r
    ensures |r| <= |s|
    ensures c !in s ==> r == s
  {
    if s == [] then []
    else Without(s[..|s| - 1], c) + (if s[|s| - 1] == c then [] else [s[|s| - 1]])
  }

  /** Removal works piecewise: removing from a concatenation removes from each part. */
  lemma {:induction false} WithoutConcat(a: string, b: string, c: char)
    ensures Without(a + b, c) == Without(a, c) + Without(b, c)
  {
    if b != [] {
      var b' := b[..|b| - 1];
      assert (a + b)[..|a + b| - 1] == a + b';
      WithoutConcat(a, b', c);
    } else {
      assert a + b == a;
    }
  }

  /** Each character other than c occurs as often after removal as before. */
  lemma {:induction false} WithoutKeepsOthers(s: string, c: char, x: char)
    requires x != c
    ensures multiset(Without(s, c))[x] == multiset(s)[x]
  {
    if s != [] {
      var s' := s[..|s| - 1];
      assert s == s' + [s[|s| - 1]];
      WithoutKeepsOthers(s', c, x);
    }
  }

  /** The part of s after its last c, or all of s when c does not occur. */
  function AfterLast(s: string, c: char): (r: string)
    ensures c !in r
    ensures |r| <= |s| && r == s[|s| - |r|..]
    ensures r == s || s[|s| - |r| - 1] == c
  {
    if s == [] then []
    else if s[|s| - 1] == c then []
    else AfterLast(s[..|s| - 1], c) + [s[|s| - 1]]
  }

  /** The three facts AfterLast ensures determine its result. */
  lemma AfterLastUnique(s: string, c: char, r: string)
    requires c !in r
    requires |r| <= |s| && r == s[|s| - |r|..]
    requires r == s || s[|s| - |r| - 1] == c
    ensures r == AfterLast(s, c)
  {
  }

  /** The model text after normalisation. */
  function NormalisedModel(raw: string): (model: string)
    ensures '\n' !in model && ' ' !in model
  {
    var stripped := Without(raw, '\n');
    var r := AfterLast(stripped, ' ');
    assert forall i :: 0 <= i < |r| ==> r[i] == stripped[|stripped| - |r| + i];
    r
  }

  /** Extending a prefix by one character extends its removal by that
      character, unless it is the one removed. */
  lemma WithoutPrefixStep(s: string, i: nat, c: char)
    requires i < |s|
    ensures Without(s[..i + 1], c) == Without(s[..i], c) + (if s[i] == c then [] else [s[i]])
  {
    assert s[..i + 1][..i] == s[..i];
  }

  /** The remove/erase idiom on a character buffer: the kept characters are
      moved to the front in order and their count is returned as the new end. */
  method RemoveInPlace(a: array<char>, c: char) returns (end: nat)
    modifies a
    ensures end <= a.Length
    ensures a[..end] == Without(old(a[..]), c)
  {
    ghost var s := a[..];
    var w := 0;
    var i := 0;
    while i < a.Length
      invariant w <= i <= a.Length
      invariant a[..w] == Without(s[..i], c)
      invariant forall k :: i <= k < a.Length ==> a[k] == s[k]
    {
      var x := a[i];
      ghost var kept := a[..w];
      WithoutPrefixStep(s, i, c);
      if x != c {
        a[w] := x;
        assert a[..w + 1] == kept + [x];
        w := w + 1;
      }
      i := i + 1;
    }
    assert s[..a.Length] == s;
    end := w;
  }

  /** find_last_of: the position of the last c in s, scanning from the end. */
  method FindLastOf(s: string, c: char) returns (pos: Option<nat>)
    ensures pos.Some? ==> pos.value < |s| && s[pos.value] == c && c !in s[pos.value + 1..]
    ensures pos.None? ==> c !in s
  {
    var i := |s|;
    while i > 0
      invariant 0 <= i <= |s|
      invariant c !in s[i..]
    {
      if s[i - 1] == c {
        return Some(i - 1);
      }
      assert s[i - 1..] == [s[i - 1]] + s[i..];
      i := i - 1;
    }
    assert s[0..] == s;
    return None;
  }

  /** The normalisation as the source performs it: copy into a buffer, remove
      the newlines, truncate, then cut everything up to and including the last space. */
  method NormaliseModel(raw: string) returns (model: string)
    ensures model == NormalisedModel(raw)
    ensures '\n' !in model && ' ' !in model
  {
    var buf := new char[|raw|](k requires 0 <= k < |raw| => raw[k]);
    assert buf[..] == raw;
    var end := RemoveInPlace(buf, '\n');
    model := buf[..end];
    var pos := FindLastOf(model, ' ');
    if pos.Some? {
      AfterLastUnique(model, ' ', model[pos.value + 1..]);
      model := model[pos.value + 1..];
    } else {
      AfterLastUnique(model, ' ', model);
    }
  }

  /** Normalisation keeps a model that has neither newline nor space. */
  lemma NormalisedPlain(raw: string)
    requires '\n' !in raw && ' ' !in raw
    ensures NormalisedModel(raw) == raw
  {
  }

  /** A vendor prefix before the last space and a trailing newline are dropped:
      the result is the last word. */
  lemma NormalisedLastWord(prefix: string, word: string)
    requires '\n' !in prefix && '\n' !in word && ' ' !in word
    ensures NormalisedModel(prefix + " " + word + "\n") == word
  {
    var s := prefix + " " + word;
    var raw := s + "\n";
    assert raw == prefix + " " + word + "\n";
    assert raw[..|raw| - 1] == s;
    assert '\n' !in s;
    assert Without(raw, '\n') == s;
    AfterLastUnique(s, ' ', word);
  }

  /** A model text that ends in a space normalises to the empty string. */
  lemma NormalisedTrailingSpace(raw: string)
    requires |raw| > 0 && raw[|raw| - 1] == ' '
    ensures NormalisedModel(raw) == []
  {
    var s' := raw[..|raw| - 1];
    assert raw == s' + [' '];
    WithoutConcat(s', [' '], '\n');
    assert Without([' '], '\n') == [' '];
  }
}
