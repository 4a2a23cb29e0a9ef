/** NUL-terminated strings in character buffers, and the order `strcmp` puts on them. */
module CStrings {

  const NUL: char := '\0'

  /** The C string that starts at offset `at`: every character up to the first NUL. */
  function CStr(b: seq<char>, at: nat): (s: string)
    requires at <= |b|
    ensures NUL !in s
    decreases |b| - at
  {
    if at == |b| || b[at] == NUL then [] else [b[at]] + CStr(b, at + 1)
  }

  /** `b` holds the C string `s`, with its terminator, from offset `at` on. */
  ghost predicate Holds(b: seq<char>, at: nat, s: string) {
    && NUL !in s
    && at + |s| < |b|
    && b[at..at + |s|] == s
    && b[at + |s|] == NUL
  }

  lemma {:induction false} HoldsReads(b: seq<char>, at: nat, s: string)
    requires Holds(b, at, s)
    ensures CStr(b, at) == s
    decreases |s|
  {
    if s == [] {
    } else {
      assert b[at] == b[at..at + |s|][0] == s[0];
      assert b[at + 1..at + 1 + |s[1..]|] == b[at..at + |s|][1..] == s[1..];
      HoldsReads(b, at + 1, s[1..]);
    }
  }

  /** A C string is terminated inside the buffer: what every string function of C needs. */
  ghost predicate Terminated(b: seq<char>, at: nat) {
    at < |b| && exists k :: at <= k < |b| && b[k] == NUL
  }

  lemma {:induction false} TerminatedHolds(b: seq<char>, at: nat)
    requires Terminated(b, at)
    ensures Holds(b, at, CStr(b, at))
    decreases |b| - at
  {
    if b[at] != NUL {
      TerminatedHolds(b, at + 1);
      var s, t := CStr(b, at), CStr(b, at + 1);
      assert b[at..at + |s|] == [b[at]] + b[at + 1..at + 1 + |t|];
    }
  }

  /** The sign `strcmp` returns: the first difference decides, and a proper prefix is smaller. */
  function StrCmp(a: string, b: string): (c: int)
    ensures -1 <= c <= 1
  {
    if a == [] && b == [] then 0
    else if a == [] then -1
    else if b == [] then 1
    else if a[0] == b[0] then StrCmp(a[1..], b[1..])
    else if a[0] < b[0] then -1
    else 1
  }

  predicate Before(a: string, b: string) {
    StrCmp(a, b) < 0
  }

  /** `strcmp` against the definition in the C standard: the first differing character, or the end, decides. */
  lemma {:induction false} StrCmpFirstDifference(a: string, b: string, k: nat)
    requires k <= |a| && k <= |b| && a[..k] == b[..k]
    requires k == |a| || k == |b| || a[k] != b[k]
    ensures StrCmp(a, b) < 0 <==> k < |b| && (k == |a| || a[k] < b[k])
    ensures StrCmp(a, b) == 0 <==> k == |a| == |b|
  {
    if k > 0 {
      assert a[0] == a[..k][0] == b[..k][0] == b[0];
      assert a[1..][..k - 1] == a[..k][1..] && b[1..][..k - 1] == b[..k][1..];
      StrCmpFirstDifference(a[1..], b[1..], k - 1);
    }
  }

  lemma {:induction false} StrCmpZeroIsEquality(a: string, b: string)
    ensures StrCmp(a, b) == 0 <==> a == b
  {
    if a != [] && b != [] {
      StrCmpZeroIsEquality(a[1..], b[1..]);
      assert a == [a[0]] + a[1..] && b == [b[0]] + b[1..];
    }
  }

  lemma {:induction false} StrCmpAntisymmetric(a: string, b: string)
    ensures StrCmp(b, a) == -StrCmp(a, b)
  {
    if a != [] && b != [] {
      StrCmpAntisymmetric(a[1..], b[1..]);
    }
  }

  lemma {:induction false} StrCmpTransitive(a: string, b: string, c: string)
    requires StrCmp(a, b) <= 0 && StrCmp(b, c) <= 0
    ensures StrCmp(a, c) <= 0
    ensures StrCmp(a, b) < 0 || StrCmp(b, c) < 0 ==> StrCmp(a, c) < 0
  {
    if a != [] && b != [] && c != [] {
      if a[0] == b[0] && b[0] == c[0] {
        StrCmpTransitive(a[1..], b[1..], c[1..]);
      }
    }
  }

  // ----- The order in terms of characters

  /** At the first position where the two differ, `a` has ended or has the smaller character. */
  ghost predicate DictionaryBefore(a: string, b: string) {
    exists k :: 0 <= k <= |a| && k < |b| && a[..k] == b[..k] && (k == |a| || a[k] < b[k])
  }

  lemma {:induction false} CommonPrefix(a: string, b: string) returns (k: nat)
    ensures k <= |a| && k <= |b| && a[..k] == b[..k]
    ensures k == |a| || k == |b| || a[k] != b[k]
  {
    if a == [] || b == [] || a[0] != b[0] {
      k := 0;
    } else {
      var n := CommonPrefix(a[1..], b[1..]);
      k := n + 1;
      assert a[..k] == [a[0]] + a[1..][..n] && b[..k] == [b[0]] + b[1..][..n];
    }
  }

  /** The order that `strcmp(a, b) < 0` decides is the order of dictionaries. */
  lemma BeforeIsDictionaryOrder(a: string, b: string)
    ensures Before(a, b) <==> DictionaryBefore(a, b)
  {
    if DictionaryBefore(a, b) {
      var k :| 0 <= k <= |a| && k < |b| && a[..k] == b[..k] && (k == |a| || a[k] < b[k]);
      StrCmpFirstDifference(a, b, k);
    } else {
      var k := CommonPrefix(a, b);
      StrCmpFirstDifference(a, b, k);
    }
  }
}
