/**
 * The text behind the "Top Investors Word Cloud": the investor cells of the
 * filtered view joined with spaces, and the blank check that decides whether
 * the cloud is drawn or the "No data available" notice is shown instead.
 */
module Investors {
  import opened Wrappers
  import opened Seqs
  import opened Startups

  /** The `Select Investors` column, NaN included. */
  function InvestorColumn(view: seq<Row>): seq<Option<string>> {
    seq(|view|, i requires 0 <= i < |view| => view[i].investors)
  }

  /**
   * `view['Select Investors'].dropna()`: the present investor cells in row
   * order, each string as often as rows hold it.
   */
  function InvestorNames(view: seq<Row>): (r: seq<string>)
    ensures |r| <= |view|
    ensures IsSubsequence(Somes(r), InvestorColumn(view))
    ensures forall s :: Occurrences(r, s) == Occurrences(InvestorColumn(view), Some(s))
    ensures forall s :: s in r <==> exists row :: row in view && row.investors == Some(s)
  {
    var col := InvestorColumn(view);
    forall s | exists row :: row in view && row.investors == Some(s)
      ensures Some(s) in col
    {
      var row :| row in view && row.investors == Some(s);
      var i :| 0 <= i < |view| && view[i] == row;
      assert col[i] == Some(s);
    }
    forall s | Some(s) in col
      ensures exists row :: row in view && row.investors == Some(s)
    {
      var i :| 0 <= i < |col| && col[i] == Some(s);
      assert view[i] in view;
    }
    DropMissing(col)
  }

  /** The summed length of some strings. */
  function TotalLength(parts: seq<string>): nat {
    if parts == [] then 0 else |parts[0]| + TotalLength(parts[1..])
  }

  /** Python's `' '.join(parts)`: the parts in order with one space between neighbours. */
  function Join(parts: seq<string>): (r: string)
    ensures parts == [] ==> r == ""
    ensures parts != [] ==> |r| == TotalLength(parts) + |parts| - 1
    ensures parts != [] ==> r[..|parts[0]|] == parts[0]
  {
    if parts == [] then ""
    else if |parts| == 1 then parts[0]
    else parts[0] + " " + Join(parts[1..])
  }

  /** Joining two non-empty lists puts one space between their joins, so the join keeps the order of its parts. */
  lemma {:induction false} JoinAppend(ps: seq<string>, qs: seq<string>)
    requires ps != [] && qs != []
    ensures Join(ps + qs) == Join(ps) + " " + Join(qs)
  {
    if |ps| == 1 {
      assert (ps + qs)[1..] == qs;
    } else {
      assert (ps + qs)[1..] == ps[1..] + qs;
      JoinAppend(ps[1..], qs);
    }
  }

  /**
   * The investor text of the view: empty when every investor cell is missing,
   * and holding a non-whitespace character exactly when some present cell does.
   */
  function InvestorText(view: seq<Row>): (r: string)
    ensures (forall row :: row in view ==> row.investors.None?) ==> r == ""
    ensures HasWord(r) <==> exists row :: row in view && row.investors.Some? && HasWord(row.investors.value)
  {
    var names := InvestorNames(view);
    JoinHasWord(names);
    NamesOfRows(view);
    Join(names)
  }

  /** A name is listed exactly when a row holds it, so no rows with investors means no names. */
  lemma NamesOfRows(view: seq<Row>)
    ensures (forall row :: row in view ==> row.investors.None?) ==> InvestorNames(view) == []
    ensures (exists p :: p in InvestorNames(view) && HasWord(p)) <==>
      exists row :: row in view && row.investors.Some? && HasWord(row.investors.value)
  {
    var names := InvestorNames(view);
    if names != [] {
      assert names[0] in names;
    }
    if exists row :: row in view && row.investors.Some? && HasWord(row.investors.value) {
      var row :| row in view && row.investors.Some? && HasWord(row.investors.value);
      assert row.investors.value in names;
    }
  }

  /** Python's `str.isspace()` for one character: the characters `str.strip()` removes. */
  predicate IsSpace(c: char) {
    || '\t' <= c <= '\r'
    || '\U{1C}' <= c <= ' '
    || c == '\U{85}' || c == '\U{A0}' || c == '\U{1680}'
    || '\U{2000}' <= c <= '\U{200A}'
    || c == '\U{2028}' || c == '\U{2029}' || c == '\U{202F}' || c == '\U{205F}' || c == '\U{3000}'
  }

  /** `s` holds at least one character that is not whitespace. */
  predicate HasWord(s: string) {
    exists i :: 0 <= i < |s| && !IsSpace(s[i])
  }

  /** `s.lstrip()`: drops the leading whitespace. */
  function StripStart(s: string): (r: string)
    ensures |r| <= |s| && r == s[|s| - |r|..]
    ensures r != [] ==> !IsSpace(r[0])
    ensures forall i :: 0 <= i < |s| - |r| ==> IsSpace(s[i])
  {
    if s != [] && IsSpace(s[0]) then StripStart(s[1..]) else s
  }

  /** `s.rstrip()`: drops the trailing whitespace. */
  function StripEnd(s: string): (r: string)
    ensures |r| <= |s| && r == s[..|r|]
    ensures r != [] ==> !IsSpace(r[|r| - 1])
    ensures forall i :: |r| <= i < |s| ==> IsSpace(s[i])
  {
    if s != [] && IsSpace(s[|s| - 1]) then StripEnd(s[..|s| - 1]) else s
  }

  /** `s.strip()`: drops the leading and the trailing whitespace. */
  function Strip(s: string): (r: string)
    ensures |r| <= |s|
    ensures r != [] ==> !IsSpace(r[0]) && !IsSpace(r[|r| - 1])
    ensures var a := |s| - |StripStart(s)|; a + |r| <= |s| && r == s[a..a + |r|]
    ensures var a := |s| - |StripStart(s)|; forall i :: 0 <= i < a || a + |r| <= i < |s| ==> IsSpace(s[i])
  {
    StripEnd(StripStart(s))
  }

  /** `if investors.strip():` the word-cloud branch is taken exactly when the text has a non-whitespace character. */
  predicate ShowsWordCloud(text: string): (b: bool)
    ensures b <==> HasWord(text)
  {
    StripNonEmptyIffWord(text);
    Strip(text) != ""
  }

  /** Stripping leaves something exactly when the text is not all whitespace. */
  lemma StripNonEmptyIffWord(s: string)
    ensures Strip(s) != "" <==> HasWord(s)
  {
    var t := StripStart(s);
    var r := StripEnd(t);
    var a := |s| - |t|;
    if r != "" {
      assert s[a] == t[0] == r[0];
    }
    if HasWord(s) {
      var i :| 0 <= i < |s| && !IsSpace(s[i]);
      assert a <= i;
      assert t[i - a] == s[i];
    }
  }

  /** The join has a word exactly when one of its parts has: the separators are spaces. */
  lemma {:induction false} JoinHasWord(parts: seq<string>)
    ensures HasWord(Join(parts)) <==> exists p :: p in parts && HasWord(p)
  {
    if |parts| > 1 {
      var rest := Join(parts[1..]);
      JoinHasWord(parts[1..]);
      var p0 := parts[0];
      var j := p0 + " " + rest;
      assert j == Join(parts);
      assert forall p :: p in parts <==> p == p0 || p in parts[1..];
      if HasWord(j) {
        var i :| 0 <= i < |j| && !IsSpace(j[i]);
        if i < |p0| { assert p0[i] == j[i]; }
        else { assert i > |p0|; assert rest[i - |p0| - 1] == j[i]; }
      }
      if HasWord(p0) {
        var i :| 0 <= i < |p0| && !IsSpace(p0[i]);
        assert j[i] == p0[i];
      }
      if HasWord(rest) {
        var i :| 0 <= i < |rest| && !IsSpace(rest[i]);
        assert j[i + |p0| + 1] == rest[i];
      }
    } else if |parts| == 1 {
      assert forall p :: p in parts <==> p == parts[0];
    }
  }

  /**
   * The word-cloud branch is taken exactly when some row of the view has an
   * investor cell with a non-whitespace character; otherwise the notice is shown.
   */
  lemma WordCloudShownIffSomeInvestor(view: seq<Row>)
    ensures ShowsWordCloud(InvestorText(view)) <==>
      exists row :: row in view && row.investors.Some? && HasWord(row.investors.value)
  {
  }
}
