/**
 * Quote links: extractMentions() in b/index.php and b/mod.php. A post's text
 * names other posts as `>>123`; the digit strings are collected in order and
 * duplicates (compared as strings) are dropped.
 */
module Mentions {
  import opened Base
  import opened Php

  /** A `>>` followed by a digit starts at position `i` of `s`. */
  predicate QuoteAt(s: string, i: int) {
    0 <= i && i + 2 < |s| && s[i] == '>' && s[i + 1] == '>' && IsDigit(s[i + 2])
  }

  /**
   * The captures of preg_match_all('/>>(\d+)/'): scanning left to right, each
   * `>>` followed by a digit yields its maximal digit run, and the scan
   * resumes after that run.
   */
  function Matches(s: string): (r: seq<string>)
    ensures forall k :: 0 <= k < |r| ==> r[k] != [] && AllDigits(r[k])
    decreases |s|
  {
    if |s| < 3 then []
    else if QuoteAt(s, 0) then
      var d := DigitPrefix(s[2..]);
      [d] + Matches(s[2 + |d|..])
    else Matches(s[1..])
  }

  /** Every capture is the whole digit run that follows some `>>` of the text. */
  lemma {:induction false} MatchesSound(s: string, k: int)
    requires 0 <= k < |Matches(s)|
    ensures exists i :: QuoteAt(s, i) && Matches(s)[k] == DigitPrefix(s[i + 2..])
    decreases |s|
  {
    if QuoteAt(s, 0) {
      var d := DigitPrefix(s[2..]);
      var off := 2 + |d|;
      var rest := s[off..];
      assert Matches(s) == [d] + Matches(rest);
      if k == 0 {
        assert s[0 + 2..] == s[2..];
      } else {
        MatchesSound(rest, k - 1);
        var i :| QuoteAt(rest, i) && Matches(rest)[k - 1] == DigitPrefix(rest[i + 2..]);
        QuoteInSuffix(s, off, i);
      }
    } else if |s| >= 3 {
      assert Matches(s) == Matches(s[1..]);
      MatchesSound(s[1..], k);
      var i :| QuoteAt(s[1..], i) && Matches(s[1..])[k] == DigitPrefix(s[1..][i + 2..]);
      QuoteInSuffix(s, 1, i);
    }
  }

  /** A quote found in a suffix is a quote of the whole text, with the same digits after it. */
  lemma QuoteInSuffix(s: string, off: int, i: int)
    requires 0 <= off <= |s| && QuoteAt(s[off..], i)
    ensures QuoteAt(s, off + i) && s[off..][i + 2..] == s[off + i + 2..]
  {
    assert s[off..][i] == s[off + i] && s[off..][i + 1] == s[off + i + 1] && s[off..][i + 2] == s[off + i + 2];
  }

  /**
   * Nothing is missed: every `>>` followed by a digit contributes its whole
   * digit run (a `>>` never starts inside an earlier match).
   */
  lemma {:induction false} MatchesComplete(s: string, i: int)
    requires QuoteAt(s, i)
    ensures DigitPrefix(s[i + 2..]) in Matches(s)
    decreases |s|
  {
    if QuoteAt(s, 0) {
      var d := DigitPrefix(s[2..]);
      var rest := s[2 + |d|..];
      assert Matches(s) == [d] + Matches(rest);
      if i > 0 {
        assert forall j :: 2 <= j < 2 + |d| ==> s[j] == d[j - 2];
        assert i >= 2 + |d|;
        var j := i - 2 - |d|;
        assert rest[j..] == s[i..];
        assert QuoteAt(rest, j);
        MatchesComplete(rest, j);
        assert rest[j + 2..] == s[i + 2..];
      }
    } else {
      assert i >= 1;
      assert Matches(s) == Matches(s[1..]);
      assert QuoteAt(s[1..], i - 1);
      MatchesComplete(s[1..], i - 1);
      assert s[1..][i - 1 + 2..] == s[i + 2..];
    }
  }

  /** The text quotes something exactly when the regex finds a match. */
  lemma {:induction false} MatchesEmptyIff(s: string)
    ensures Matches(s) == [] <==> forall i :: 0 <= i < |s| ==> !QuoteAt(s, i)
    decreases |s|
  {
    if |s| >= 3 && !QuoteAt(s, 0) {
      MatchesEmptyIff(s[1..]);
      forall i | 1 <= i < |s|
        ensures QuoteAt(s, i) == QuoteAt(s[1..], i - 1)
      {
      }
      if forall i :: 0 <= i < |s| ==> !QuoteAt(s, i) {
        assert forall i :: 0 <= i < |s[1..]| ==> !QuoteAt(s[1..], i) by {
          forall i | 0 <= i < |s[1..]| ensures !QuoteAt(s[1..], i) {
            assert !QuoteAt(s, i + 1);
          }
        }
      } else {
        var i :| 0 <= i < |s| && QuoteAt(s, i);
        assert QuoteAt(s[1..], i - 1);
      }
    }
  }

  /**
   * array_unique(): the first occurrence of every value, in the order of
   * first occurrence.
   */
  function Dedup(s: seq<string>): (r: seq<string>)
  {
    if s == [] then []
    else
      var r := Dedup(s[..|s| - 1]);
      if s[|s| - 1] in r then r else r + [s[|s| - 1]]
  }

  /** The values extractMentions() returns for a post text. */
  function ExtractMentions(text: string): seq<string>
  {
    Dedup(Matches(text))
  }

  predicate Distinct(s: seq<string>) {
    forall i, j :: 0 <= i < j < |s| ==> s[i] != s[j]
  }

  /**
   * The de-duplicated list holds each value of `s` exactly once, and lists
   * them in the order in which they first occur in `s`.
   */
  lemma {:induction false} DedupSpec(s: seq<string>)
    ensures Distinct(Dedup(s))
    ensures forall x :: x in Dedup(s) <==> x in s
    ensures forall i, j :: 0 <= i < j < |Dedup(s)|
              ==> IndexOf(s, Dedup(s)[i]).value < IndexOf(s, Dedup(s)[j]).value
  {
    if s != [] {
      var p := s[..|s| - 1];
      var x := s[|s| - 1];
      DedupSpec(p);
      assert s == p + [x];
      var r := Dedup(p);
      IndexOfAppend(p, x);
      if x in r {
        assert Dedup(s) == r;
      } else {
        var d := r + [x];
        assert Dedup(s) == d;
        forall i, j | 0 <= i < j < |d|
          ensures IndexOf(s, d[i]).value < IndexOf(s, d[j]).value
        {
          if j == |r| {
            assert d[i] == r[i] && r[i] in p;
          }
        }
      }
    }
  }

  /** Appending `x` leaves the first position of every earlier value alone. */
  lemma IndexOfAppend(p: seq<string>, x: string)
    ensures forall y :: y in p ==> IndexOf(p + [x], y) == IndexOf(p, y)
    ensures x !in p ==> IndexOf(p + [x], x) == Some(|p|)
  {
    var s := p + [x];
    forall y | y in p
      ensures IndexOf(s, y) == IndexOf(p, y)
    {
      var k := IndexOf(p, y).value;
      assert s[k] == y;
      assert forall m :: 0 <= m < k ==> s[m] == p[m];
    }
    if x !in p {
      assert forall m :: 0 <= m < |p| ==> s[m] == p[m];
    }
  }

  /**
   * extractMentions() returns, once each and in first-occurrence order,
   * exactly the whole digit runs that follow a `>>` in the text.
   */
  lemma ExtractMentionsSpec(text: string)
    ensures Distinct(ExtractMentions(text))
    ensures forall x :: x in ExtractMentions(text) <==> x in Matches(text)
    ensures forall i, j :: 0 <= i < j < |ExtractMentions(text)|
              ==> IndexOf(Matches(text), ExtractMentions(text)[i]).value
                  < IndexOf(Matches(text), ExtractMentions(text)[j]).value
    ensures forall k :: 0 <= k < |ExtractMentions(text)|
              ==> ExtractMentions(text)[k] != [] && AllDigits(ExtractMentions(text)[k])
    ensures forall x :: x in ExtractMentions(text)
              <==> exists i :: QuoteAt(text, i) && x == DigitPrefix(text[i + 2..])
  {
    DedupSpec(Matches(text));
    var m := Matches(text);
    forall x
      ensures x in m <==> exists i :: QuoteAt(text, i) && x == DigitPrefix(text[i + 2..])
    {
      if x in m {
        var k :| 0 <= k < |m| && m[k] == x;
        MatchesSound(text, k);
      }
      if exists i :: QuoteAt(text, i) && x == DigitPrefix(text[i + 2..]) {
        var i :| QuoteAt(text, i) && x == DigitPrefix(text[i + 2..]);
        MatchesComplete(text, i);
      }
    }
    forall k | 0 <= k < |ExtractMentions(text)|
      ensures ExtractMentions(text)[k] != [] && AllDigits(ExtractMentions(text)[k])
    {
      assert ExtractMentions(text)[k] in m;
      var j :| 0 <= j < |m| && m[j] == ExtractMentions(text)[k];
    }
  }

  /** Every extracted value is a non-empty digit string. */
  lemma ExtractedDigits(text: string)
    ensures forall k :: 0 <= k < |ExtractMentions(text)| ==> AllDigits(ExtractMentions(text)[k])
  {
    ExtractMentionsSpec(text);
  }

  /** A text without any `>>` followed by a digit mentions nothing, and conversely. */
  lemma ExtractMentionsEmptyIff(text: string)
    ensures ExtractMentions(text) == [] <==> forall i :: 0 <= i < |text| ==> !QuoteAt(text, i)
  {
    MatchesEmptyIff(text);
    DedupSpec(Matches(text));
    if Matches(text) != [] {
      assert Matches(text)[0] in ExtractMentions(text);
    }
  }

  /**
   * Duplicates are compared as strings: `>>05 >>5` yields both "05" and "5",
   * which the database reads as the same post id 5.
   */
  lemma LeadingZeroDuplicate(text: string)
    requires text == ">>05 >>5"
    ensures ExtractMentions(text) == ["05", "5"]
    ensures DigitsValue("05") == DigitsValue("5") == 5
  {
    assert QuoteAt(text, 0);
    var d := DigitPrefix(text[2..]);
    assert text[2..][0] == '0' && text[2..][1] == '5' && text[2..][2] == ' ';
    assert d == "05";
    var t := text[4..];
    assert !QuoteAt(t, 0) && t[1..] == ">>5";
    var u := t[1..];
    assert QuoteAt(u, 0);
    assert DigitPrefix(u[2..]) == "5";
    assert u[3..] == [];
    assert Matches(u) == ["5"];
    assert Matches(text) == ["05", "5"];
    var m := ["05", "5"];
    assert m[..1] == ["05"] && m[..1][..0] == [];
    assert "5" !in Dedup(m[..1]);
  }
}
