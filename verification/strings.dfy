/** Java `String` operations the core relies on, over `seq<char>`. */
module Strings {

  /** `s.contains(p)`: `p` occurs in `s` as a contiguous run of characters. */
  predicate Contains(s: string, p: string)
    decreases |s|
  {
    p <= s || (|s| > 0 && Contains(s[1..], p))
  }

  lemma {:induction false} ContainsAt(s: string, p: string, i: nat)
    requires i + |p| <= |s| && s[i..i + |p|] == p
    ensures Contains(s, p)
  {
    if i > 0 {
      assert s[1..][i - 1..i - 1 + |p|] == s[i..i + |p|];
      ContainsAt(s[1..], p, i - 1);
    }
  }

  lemma {:induction false} ContainsLength(s: string, p: string)
    requires Contains(s, p)
    ensures |p| <= |s|
  {
    if !(p <= s) {
      ContainsLength(s[1..], p);
    }
  }

  /** `p` occurs in `s` starting at index `i`. */
  predicate OccursAt(s: string, p: string, i: int)
  {
    0 <= i && i + |p| <= |s| && s[i..i + |p|] == p
  }

  lemma {:induction false} ContainsWitness(s: string, p: string)
    requires Contains(s, p)
    ensures exists i :: OccursAt(s, p, i)
    decreases |s|
  {
    if p <= s {
      assert OccursAt(s, p, 0);
    } else {
      ContainsWitness(s[1..], p);
      var i :| OccursAt(s[1..], p, i);
      assert s[1..][i..i + |p|] == s[i + 1..i + 1 + |p|];
      assert OccursAt(s, p, i + 1);
    }
  }

  /** `Collectors.joining()`: concatenation with no separator. */
  function Join(parts: seq<string>): string
  {
    if parts == [] then "" else parts[0] + Join(parts[1..])
  }

  lemma {:induction false} JoinAppend(a: seq<string>, b: seq<string>)
    ensures Join(a + b) == Join(a) + Join(b)
  {
    if a != [] {
      assert (a + b)[1..] == a[1..] + b;
      JoinAppend(a[1..], b);
    } else {
      assert a + b == b;
    }
  }

  predicate EndsWith(s: string, suffix: string)
  {
    |suffix| <= |s| && s[|s| - |suffix|..] == suffix
  }

  /** `Character.toLowerCase` on ASCII letters; every other character is kept. */
  function LowerChar(c: char): char
  {
    if 'A' <= c <= 'Z' then (c as int + 32) as char else c
  }

  /** `String.toLowerCase()`, for ASCII letters. */
  function ToLower(s: string): (r: string)
    ensures |r| == |s|
    ensures forall i :: 0 <= i < |s| ==> r[i] == LowerChar(s[i])
  {
    seq(|s|, i requires 0 <= i < |s| => LowerChar(s[i]))
  }
}
