/**
 * Document identifiers: the i-th document of the corpus is named
 * "doc_" followed by the decimal spelling of i (Python's `str` of a
 * non-negative int). IndexOf reads an identifier back; the two are inverse,
 * which makes the identifiers of a corpus pairwise distinct.
 */
module Identifiers {
  import opened Wrappers

  predicate IsDigit(c: char) { '0' <= c <= '9' }

  predicate AllDigits(s: string) { forall i :: 0 <= i < |s| ==> IsDigit(s[i]) }

  /** A decimal numeral as Python's `str` prints one: no sign and no leading zero. */
  predicate Canonical(s: string) {
    |s| > 0 && AllDigits(s) && (s[0] == '0' ==> |s| == 1)
  }

  function DigitChar(d: nat): (c: char)
    requires d < 10
    ensures IsDigit(c) && DigitValue(c) == d
  {
    (48 + d) as char
  }

  function DigitValue(c: char): (d: nat)
    requires IsDigit(c)
    ensures d < 10
  {
    c as int - 48
  }

  /** `str(n)` for a non-negative n. */
  function NatToString(n: nat): (s: string)
    ensures Canonical(s)
    ensures s[0] == '0' <==> n == 0
  {
    if n < 10 then [DigitChar(n)] else NatToString(n / 10) + [DigitChar(n % 10)]
  }

  /** The value of a string of decimal digits. */
  function StringToNat(s: string): nat
    requires AllDigits(s)
  {
    if s == [] then 0 else StringToNat(s[..|s| - 1]) * 10 + DigitValue(s[|s| - 1])
  }

  lemma {:induction false} StringToNatOfNatToString(n: nat)
    ensures StringToNat(NatToString(n)) == n
  {
    var s := NatToString(n);
    if n < 10 {
      assert s[..|s| - 1] == [];
    } else {
      StringToNatOfNatToString(n / 10);
      assert s[..|s| - 1] == NatToString(n / 10);
    }
  }

  lemma {:induction false} StringToNatPositive(s: string)
    requires Canonical(s) && s[0] != '0'
    ensures StringToNat(s) >= 1
  {
    var p := s[..|s| - 1];
    if |s| == 1 {
      assert p == [];
    } else {
      assert p[0] == s[0];
      StringToNatPositive(p);
    }
  }

  lemma {:induction false} NatToStringOfStringToNat(s: string)
    requires Canonical(s)
    ensures NatToString(StringToNat(s)) == s
  {
    var p := s[..|s| - 1];
    var last := s[|s| - 1];
    if |s| == 1 {
      assert p == [];
      assert s == [last];
    } else {
      assert p[0] == s[0];
      StringToNatPositive(p);
      NatToStringOfStringToNat(p);
      var n := StringToNat(s);
      assert n / 10 == StringToNat(p) && n % 10 == DigitValue(last);
      assert s == p + [last];
    }
  }

  /** `f"doc_{i}"` */
  function DocId(i: nat): string {
    "doc_" + NatToString(i)
  }

  /** The corpus index an identifier names, if it is of the form `doc_<n>`. */
  function IndexOf(id: string): Option<nat> {
    if 4 <= |id| && id[..4] == "doc_" && Canonical(id[4..]) then Some(StringToNat(id[4..])) else None
  }

  /** IndexOf inverts DocId, in both directions. */
  lemma IndexOfDocId(id: string, i: nat)
    ensures IndexOf(id) == Some(i) <==> id == DocId(i)
  {
    if id == DocId(i) {
      assert id[..4] == "doc_" && id[4..] == NatToString(i);
      StringToNatOfNatToString(i);
    }
    if IndexOf(id) == Some(i) {
      NatToStringOfStringToNat(id[4..]);
      assert id == id[..4] + id[4..];
    }
  }

  /**
   * `[f"doc_{i}" for i in range(n)]`: one identifier per document, aligned
   * with the corpus, each naming its own index, and no two alike.
   */
  function DocIds(n: nat): (ids: seq<string>)
    ensures |ids| == n
    ensures forall i :: 0 <= i < n ==> ids[i] == DocId(i) && IndexOf(ids[i]) == Some(i)
    ensures forall i, j :: 0 <= i < j < n ==> ids[i] != ids[j]
  {
    var ids := seq(n, i requires 0 <= i => DocId(i));
    assert forall i :: 0 <= i < n ==> IndexOf(ids[i]) == Some(i) by {
      forall i | 0 <= i < n ensures IndexOf(ids[i]) == Some(i) {
        IndexOfDocId(ids[i], i);
      }
    }
    ids
  }
}
