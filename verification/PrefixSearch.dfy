/** Matching a principal's text against a dashless prefix (canisters/historian/src/read_model.rs). */
module PrefixSearch {

  /** The text without its group separators. */
  function Compact(text: string): string {
    if text == [] then []
    else if text[0] == '-' then Compact(text[1..])
    else [text[0]] + Compact(text[1..])
  }

  /** The text up to its first separator. */
  function FirstGroup(text: string): string {
    if text == [] || text[0] == '-' then [] else [text[0]] + FirstGroup(text[1..])
  }

  function AsciiLower(c: char): char {
    if 'A' <= c <= 'Z' then (c as int + 32) as char else c
  }

  /** Principal texts are lower-case base32 groups. */
  ghost predicate IsLowerCase(text: string) {
    forall i :: 0 <= i < |text| ==> AsciiLower(text[i]) == text[i]
  }

  lemma {:induction false} FirstGroupIsPrefix(text: string)
    ensures FirstGroup(text) <= Compact(text)
  {
    if !(text == [] || text[0] == '-') {
      FirstGroupIsPrefix(text[1..]);
    }
  }

  lemma {:induction false} CompactAppend(a: string, b: string)
    ensures Compact(a + b) == Compact(a) + Compact(b)
  {
    if a == [] {
      assert a + b == b;
    } else {
      assert (a + b)[1..] == a[1..] + b;
      CompactAppend(a[1..], b);
    }
  }

  lemma PrefixComparable(a: string, b: string, whole: string)
    requires a <= whole
    ensures |b| <= |a| ==> (b <= whole <==> b <= a)
    ensures |a| <= |b| && b <= whole ==> a <= b
  {
    if |b| <= |a| && b <= whole {
      assert b == whole[..|b|] == a[..|b|];
    }
    if |a| <= |b| && b <= whole {
      assert a == whole[..|a|] == b[..|a|];
    }
  }

  /** The two shortcuts and the scan together decide whether the prefix starts the dashless text. */
  method PrincipalMatchesCompactPrefix(text: string, prefix: string) returns (matches: bool)
    requires IsLowerCase(text)
    ensures matches <==> prefix <= Compact(text)
  {
    var group := FirstGroup(text);
    FirstGroupIsPrefix(text);
    PrefixComparable(group, prefix, Compact(text));
    if |prefix| <= |group| {
      return prefix <= group;
    }
    if !(group <= prefix) {
      return false;
    }
    var expected := 0;
    var i := 0;
    while i < |text|
      invariant i <= |text| && expected == |Compact(text[..i])| <= |prefix|
      invariant Compact(text[..i]) == prefix[..expected]
    {
      assert text[..i + 1] == text[..i] + [text[i]];
      CompactAppend(text[..i], [text[i]]);
      assert text == text[..i + 1] + text[i + 1..];
      CompactAppend(text[..i + 1], text[i + 1..]);
      if text[i] != '-' {
        assert Compact([text[i]]) == [text[i]] + Compact([]);
        assert Compact(text)[expected] == text[i];
        if expected == |prefix| {
          assert Compact(text)[..expected] == prefix;
          return true;
        }
        if AsciiLower(text[i]) != prefix[expected] {
          return false;
        }
        expected := expected + 1;
      } else {
        assert Compact([text[i]]) == Compact([]);
      }
      i := i + 1;
    }
    assert text[..i] == text;
    matches := expected == |prefix|;
  }
}
