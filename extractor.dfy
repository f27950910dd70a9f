/** Reference extraction: the cell identifiers a formula text mentions, i.e. the
    distinct matches of the pattern `[A-Z]+\d+`, scanned left to right. */
module Extractor {
  import opened Models
  import opened Sequences

  predicate IsUpper(c: char) { 'A' <= c <= 'Z' }

  predicate IsDigit(c: char) { '0' <= c <= '9' }

  predicate AllUpper(t: string) { forall m :: 0 <= m < |t| ==> IsUpper(t[m]) }

  predicate AllDigits(t: string) { forall m :: 0 <= m < |t| ==> IsDigit(t[m]) }

  /** A cell identifier: one or more letters A-Z, then one or more digits 0-9. */
  ghost predicate IsReference(t: string)
  {
    exists j :: 0 < j < |t| && AllUpper(t[..j]) && AllDigits(t[j..])
  }

  /** `t` occurs somewhere in `s`. */
  ghost predicate OccursIn(t: string, s: string)
  {
    exists a, b :: 0 <= a <= b <= |s| && s[a..b] == t
  }

  /** `s[i..k]` is a match of the pattern that cannot be extended on either side:
      no letter just before it and no digit just after it. These are exactly the
      matches a global left-to-right search reports. */
  ghost predicate MatchAt(s: string, i: int, k: int)
  {
    && 0 <= i < k <= |s|
    && IsReference(s[i..k])
    && (i == 0 || !IsUpper(s[i - 1]))
    && (k == |s| || !IsDigit(s[k]))
  }

  /** End of the run of letters that starts at `i`. */
  function LetterRunEnd(s: string, i: nat): (j: nat)
    requires i <= |s|
    ensures i <= j <= |s|
    ensures forall m :: i <= m < j ==> IsUpper(s[m])
    ensures j == |s| || !IsUpper(s[j])
    decreases |s| - i
  {
    if i < |s| && IsUpper(s[i]) then LetterRunEnd(s, i + 1) else i
  }

  /** End of the run of digits that starts at `i`. */
  function DigitRunEnd(s: string, i: nat): (j: nat)
    requires i <= |s|
    ensures i <= j <= |s|
    ensures forall m :: i <= m < j ==> IsDigit(s[m])
    ensures j == |s| || !IsDigit(s[j])
    decreases |s| - i
  {
    if i < |s| && IsDigit(s[i]) then DigitRunEnd(s, i + 1) else i
  }

  /** A run of letters bounded by a non-letter ends where `LetterRunEnd` says. */
  lemma LetterRunEndAt(s: string, i: nat, j: nat)
    requires i <= j <= |s|
    requires forall m :: i <= m < j ==> IsUpper(s[m])
    requires j == |s| || !IsUpper(s[j])
    ensures LetterRunEnd(s, i) == j
  {
  }

  /** A run of digits bounded by a non-digit ends where `DigitRunEnd` says. */
  lemma DigitRunEndAt(s: string, i: nat, j: nat)
    requires i <= j <= |s|
    requires forall m :: i <= m < j ==> IsDigit(s[m])
    requires j == |s| || !IsDigit(s[j])
    ensures DigitRunEnd(s, i) == j
  {
  }

  /** Letters on `[i, j)` followed by digits on `[j, k)` form an identifier. */
  lemma ReferenceBetween(s: string, i: nat, j: nat, k: nat)
    requires i < j < k <= |s|
    requires forall m :: i <= m < j ==> IsUpper(s[m])
    requires forall m :: j <= m < k ==> IsDigit(s[m])
    ensures IsReference(s[i..k]) && OccursIn(s[i..k], s)
  {
    var t := s[i..k];
    assert AllUpper(t[..j - i]) && AllDigits(t[j - i..]);
  }

  /** All matches of the pattern in `s` from position `p` on, in order (with repeats).
      A run of letters not followed by a digit is skipped whole: every match attempt
      starting inside it reaches the same non-digit. */
  function Scan(s: string, p: nat): (r: seq<string>)
    requires p <= |s|
    ensures forall t :: t in r ==> IsReference(t) && OccursIn(t, s)
    decreases |s| - p
  {
    if p == |s| then []
    else if !IsUpper(s[p]) then Scan(s, p + 1)
    else
      var j := LetterRunEnd(s, p);
      if j < |s| && IsDigit(s[j]) then
        var k := DigitRunEnd(s, j);
        ReferenceBetween(s, p, j, k);
        [s[p..k]] + Scan(s, k)
      else Scan(s, j)
  }

  /** The distinct identifiers of a formula, in order of first occurrence; none for
      an absent or empty formula. */
  function ExtractDependencies(formula: Option<string>): (refs: seq<string>)
    ensures formula.None? || formula == Some("") ==> refs == []
    ensures forall t :: t in refs ==> formula.Some? && IsReference(t) && OccursIn(t, formula.value)
    ensures NoDuplicates(refs)
  {
    if formula.None? || formula.value == "" then [] else Dedup(Scan(formula.value, 0))
  }

  /** No match can begin at `p` other than one that begins a fresh run of letters. */
  ghost predicate ScanBoundary(s: string, p: nat)
    requires p <= |s|
  {
    p == 0 || p == |s| || !IsUpper(s[p - 1]) || !IsUpper(s[p])
  }

  /** Everything the scan reports is a maximal match at or after `p`. */
  lemma {:induction false} ScanSound(s: string, p: nat)
    requires p <= |s| && ScanBoundary(s, p)
    ensures forall t :: t in Scan(s, p) ==> exists i, k :: p <= i && MatchAt(s, i, k) && t == s[i..k]
    decreases |s| - p
  {
    if p == |s| {
    } else if !IsUpper(s[p]) {
      ScanSound(s, p + 1);
    } else {
      var j := LetterRunEnd(s, p);
      if j < |s| && IsDigit(s[j]) {
        var k := DigitRunEnd(s, j);
        ReferenceBetween(s, p, j, k);
        assert MatchAt(s, p, k);
        assert !IsUpper(s[k - 1]);
        ScanSound(s, k);
      } else {
        ScanSound(s, j);
      }
    }
  }

  /** The letters of a maximal match end exactly where its digits start. */
  lemma MatchSplit(s: string, i: int, k: int) returns (j: nat)
    requires MatchAt(s, i, k)
    ensures i < j < k && LetterRunEnd(s, i) == j && DigitRunEnd(s, j) == k
  {
    var t := s[i..k];
    var m :| 0 < m < |t| && AllUpper(t[..m]) && AllDigits(t[m..]);
    j := i + m;
    forall q | i <= q < j ensures IsUpper(s[q]) { assert s[q] == t[..m][q - i]; }
    forall q | j <= q < k ensures IsDigit(s[q]) { assert s[q] == t[m..][q - j]; }
    assert IsDigit(s[j]);
    LetterRunEndAt(s, i, j);
    DigitRunEndAt(s, j, k);
  }

  /** Every maximal match at or after `p` is reported by the scan from `p`. */
  lemma {:induction false} ScanComplete(s: string, p: nat, i: int, k: int)
    requires p <= i && MatchAt(s, i, k)
    ensures s[i..k] in Scan(s, p)
    decreases |s| - p
  {
    var jm := MatchSplit(s, i, k);
    if p == i {
      assert IsUpper(s[p]);
    } else if !IsUpper(s[p]) {
      ScanComplete(s, p + 1, i, k);
    } else {
      var j := LetterRunEnd(s, p);
      assert j <= i;
      if j < |s| && IsDigit(s[j]) {
        var k' := DigitRunEnd(s, j);
        assert k' <= i;
        ScanComplete(s, k', i, k);
      } else {
        ScanComplete(s, j, i, k);
      }
    }
  }

  /** The extracted identifiers are exactly the distinct maximal matches in the text. */
  lemma ExtractExactly(s: string)
    ensures forall t :: t in ExtractDependencies(Some(s)) <==>
                        exists i, k :: MatchAt(s, i, k) && t == s[i..k]
  {
    if s != "" {
      ScanSound(s, 0);
      forall t, i, k | MatchAt(s, i, k) && t == s[i..k]
        ensures t in ExtractDependencies(Some(s))
      {
        ScanComplete(s, 0, i, k);
      }
    }
  }

  /** Start of the run of letters that ends just after `i`. */
  function LetterRunStart(s: string, i: nat): (a: nat)
    requires i < |s|
    ensures a <= i
    ensures forall m :: a <= m < i ==> IsUpper(s[m])
    ensures a == 0 || !IsUpper(s[a - 1])
  {
    if i > 0 && IsUpper(s[i - 1]) then LetterRunStart(s, i - 1) else i
  }

  /** A formula yields no identifiers exactly when no letter is directly followed by a digit. */
  lemma ExtractNothingIff(s: string)
    ensures ExtractDependencies(Some(s)) == [] <==>
            forall i :: 0 <= i < |s| - 1 ==> !(IsUpper(s[i]) && IsDigit(s[i + 1]))
  {
    ExtractExactly(s);
    var refs := ExtractDependencies(Some(s));
    if refs != [] {
      var t := refs[0];
      assert t in refs;
      var i, k :| MatchAt(s, i, k) && t == s[i..k];
      var j := MatchSplit(s, i, k);
      assert IsUpper(s[j - 1]) && IsDigit(s[j]);
    }
    if i :| 0 <= i < |s| - 1 && IsUpper(s[i]) && IsDigit(s[i + 1]) {
      var a := LetterRunStart(s, i);
      var k := DigitRunEnd(s, i + 1);
      ReferenceBetween(s, a, i + 1, k);
      assert MatchAt(s, a, k);
      assert s[a..k] in refs;
    }
  }

  /** One step of the scan over a letter run followed by a digit run. */
  lemma ScanMatchStep(s: string, p: nat, j: nat, k: nat)
    requires p < j < k <= |s|
    requires forall m :: p <= m < j ==> IsUpper(s[m])
    requires forall m :: j <= m < k ==> IsDigit(s[m])
    requires k == |s| || !IsDigit(s[k])
    ensures Scan(s, p) == [s[p..k]] + Scan(s, k)
  {
    assert IsDigit(s[j]);
    LetterRunEndAt(s, p, j);
    DigitRunEndAt(s, j, k);
  }

  /** The scan of `=A1+B2+A1`, position by position. */
  lemma ExampleScan()
    ensures Scan("=A1+B2+A1", 0) == ["A1", "B2", "A1"]
  {
    var s := "=A1+B2+A1";
    ScanMatchStep(s, 7, 8, 9);
    assert s[7..9] == "A1";
    assert Scan(s, 6) == Scan(s, 7);
    ScanMatchStep(s, 4, 5, 6);
    assert s[4..6] == "B2";
    assert Scan(s, 3) == Scan(s, 4);
    ScanMatchStep(s, 1, 2, 3);
    assert s[1..3] == "A1";
    assert Scan(s, 0) == Scan(s, 1);
  }

  /** A formula in the style of the service's own comment (`=A1+B2`), with one
      reference repeated: `=A1+B2+A1` references A1 and B2, once each. */
  lemma ExtractExample()
    ensures ExtractDependencies(Some("=A1+B2+A1")) == ["A1", "B2"]
  {
    ExampleScan();
    assert Dedup(["A1", "B2"]) == ["A1", "B2"] by {
      assert Dedup(["A1"]) == ["A1"];
      assert ["A1", "B2"][..1] == ["A1"];
    }
    assert ["A1", "B2", "A1"][..2] == ["A1", "B2"];
  }

  /** A formula `=` + a one-letter, one-digit identifier + a tail without letters
      that does not start with a digit references exactly that identifier. */
  lemma SingleReference(letter: char, digit: char, tail: string)
    requires IsUpper(letter) && IsDigit(digit)
    requires forall m :: 0 <= m < |tail| ==> !IsUpper(tail[m])
    requires tail == [] || !IsDigit(tail[0])
    ensures ExtractDependencies(Some(['=', letter, digit] + tail)) == [[letter, digit]]
  {
    var f := ['=', letter, digit] + tail;
    assert forall m :: 3 <= m < |f| ==> f[m] == tail[m - 3];
    ScanMatchStep(f, 1, 2, 3);
    ScanTail(f, 3);
    assert f[1..3] == [letter, digit];
    assert Scan(f, 0) == Scan(f, 1);
    assert Dedup([[letter, digit]]) == [[letter, digit]];
  }

  /** The scan of a letter-free tail reports nothing. */
  lemma {:induction false} ScanTail(f: string, q: nat)
    requires 3 <= q <= |f| && forall m :: 3 <= m < |f| ==> !IsUpper(f[m])
    ensures Scan(f, q) == []
    decreases |f| - q
  {
    if q < |f| {
      ScanTail(f, q + 1);
    }
  }

  /** The references of the formulas of the example spreadsheets. */
  lemma ExampleFormulas()
    ensures ExtractDependencies(Some("=A1+1")) == ["A1"]
    ensures ExtractDependencies(Some("=B1*2")) == ["B1"]
    ensures ExtractDependencies(Some("=A1")) == ["A1"]
    ensures ExtractDependencies(Some("=B1")) == ["B1"]
  {
    SingleReference('A', '1', "+1");
    assert "=A1+1" == ['=', 'A', '1'] + "+1";
    SingleReference('B', '1', "*2");
    assert "=B1*2" == ['=', 'B', '1'] + "*2";
    SingleReference('A', '1', "");
    assert "=A1" == ['=', 'A', '1'] + "";
    SingleReference('B', '1', "");
    assert "=B1" == ['=', 'B', '1'] + "";
  }
}
