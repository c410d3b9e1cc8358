/** Comma-separated list fields (benchmark URLs, associated tasks, modalities): how
    they are counted at load time, how they are turned into the trimmed token list a
    detail panel shows, and the sorted, de-duplicated option list built from them. */
module CommaLists {
  import opened Wrappers
  import opened Text
  import opened Sequences

  const Comma: char := ','

  /** Number of pieces that are non-empty after stripping (`if piece.strip()`). */
  function CountNonBlank(pieces: seq<string>): (n: nat)
    ensures n <= |pieces|
  {
    if |pieces| == 0 then 0
    else (if Strip(pieces[0]) != "" then 1 else 0) + CountNonBlank(pieces[1..])
  }

  /** The load-time count of a comma-separated cell (`benchmark_cnt`,
      `associated_task_cnt`): 0 for a missing cell, and never more than one token
      per comma-separated piece. */
  function TokenCount(field: Option<string>): (n: nat)
    ensures field.None? ==> n == 0
    ensures field.Some? ==> n <= multiset(field.value)[Comma] + 1
  {
    match field
    case None => 0
    case Some(s) => SplitCount(s, Comma); CountNonBlank(Split(s, Comma))
  }

  /** `[p.strip() for p in pieces]`. */
  function StripEach(pieces: seq<string>): (r: seq<string>)
    ensures |r| == |pieces|
    ensures forall k :: 0 <= k < |r| ==> r[k] == Strip(pieces[k])
  {
    seq(|pieces|, k requires 0 <= k < |pieces| => Strip(pieces[k]))
  }

  /** `[x for x in xs if x]`: the entries that are not empty, in their order and
      with their repeats; the empty string is dropped wherever it occurs. */
  function NonEmpty(xs: seq<string>): (r: seq<string>)
    ensures |r| <= |xs|
    ensures forall x :: x in r <==> x in xs && x != []
    ensures IsSubsequence(r, xs)
    ensures forall x :: multiset(r)[x] == if x == [] then 0 else multiset(xs)[x]
  {
    if |xs| == 0 then []
    else
      var rest := NonEmpty(xs[1..]);
      assert xs == [xs[0]] + xs[1..];
      if xs[0] != [] then
        assert ([xs[0]] + rest)[1..] == rest;
        [xs[0]] + rest
      else
        rest
  }

  /** The stripped pieces that are not empty, in order and with their repeats. */
  function StripNonBlank(pieces: seq<string>): (r: seq<string>)
    ensures |r| <= |pieces|
    ensures forall k :: 0 <= k < |r| ==> r[k] != [] && IsTrimmed(r[k])
    ensures IsSubsequence(r, StripEach(pieces))
    ensures forall x :: multiset(r)[x] == if x == [] then 0 else multiset(StripEach(pieces))[x]
  {
    KeptAreTrimmed(pieces);
    NonEmpty(StripEach(pieces))
  }

  lemma KeptAreTrimmed(pieces: seq<string>)
    ensures forall k :: 0 <= k < |NonEmpty(StripEach(pieces))| ==>
      NonEmpty(StripEach(pieces))[k] != [] && IsTrimmed(NonEmpty(StripEach(pieces))[k])
  {
    var e := StripEach(pieces);
    var r := NonEmpty(e);
    forall k | 0 <= k < |r|
      ensures r[k] != [] && IsTrimmed(r[k])
    {
      assert r[k] in r;
      var j :| 0 <= j < |e| && e[j] == r[k];
    }
  }

  /** Every non-blank piece contributes its stripped form. */
  lemma PieceKept(pieces: seq<string>, j: int)
    requires 0 <= j < |pieces| && Strip(pieces[j]) != ""
    ensures Strip(pieces[j]) in StripNonBlank(pieces)
  {
    assert StripEach(pieces)[j] == Strip(pieces[j]);
  }

  /** Every kept token is the stripped form of one of the pieces. */
  lemma StrippedFromPiece(pieces: seq<string>, t: string)
    requires t in StripNonBlank(pieces)
    ensures exists j :: 0 <= j < |pieces| && Strip(pieces[j]) == t
  {
    var e := StripEach(pieces);
    var j :| 0 <= j < |e| && e[j] == t;
  }

  /** `[t.strip() for t in s.split(',') if t.strip()]`: the tokens of a present cell. */
  function Tokens(s: string): (r: seq<string>)
    ensures forall k :: 0 <= k < |r| ==> r[k] != [] && IsTrimmed(r[k]) && Comma !in r[k]
    ensures IsSubsequence(r, StripEach(Split(s, Comma)))
    ensures forall x :: multiset(r)[x] == if x == [] then 0 else multiset(StripEach(Split(s, Comma)))[x]
  {
    var pieces := Split(s, Comma);
    var r := StripNonBlank(pieces);
    TokensCommaFree(pieces);
    r
  }

  lemma TokensCommaFree(pieces: seq<string>)
    requires forall j :: 0 <= j < |pieces| ==> Comma !in pieces[j]
    ensures forall k :: 0 <= k < |StripNonBlank(pieces)| ==> Comma !in StripNonBlank(pieces)[k]
  {
    var r := StripNonBlank(pieces);
    forall k | 0 <= k < |r|
      ensures Comma !in r[k]
    {
      StrippedFromPiece(pieces, r[k]);
      var j :| 0 <= j < |pieces| && Strip(pieces[j]) == r[k];
      StripKeepsAbsent(Comma, pieces[j]);
    }
  }

  /** Every token of a cell is a stripped piece of it. */
  lemma TokenComesFromPiece(s: string, t: string)
    requires t in Tokens(s)
    ensures exists p :: p in Split(s, Comma) && Strip(p) == t
  {
    var pieces := Split(s, Comma);
    var e := StripEach(pieces);
    assert t in e;
    var j :| 0 <= j < |e| && e[j] == t;
    assert pieces[j] in pieces && Strip(pieces[j]) == t;
  }

  /** A piece that is not blank contributes its stripped form to the token list. */
  lemma TokenOfPiece(s: string, p: string)
    requires p in Split(s, Comma) && Strip(p) != ""
    ensures Strip(p) in Tokens(s)
  {
    var pieces := Split(s, Comma);
    var j :| 0 <= j < |pieces| && pieces[j] == p;
    PieceKept(pieces, j);
  }

  /** A token of a cell is exactly the stripped form of a non-blank piece. */
  lemma TokenIffPiece(s: string, t: string)
    ensures t in Tokens(s) <==> t != [] && exists p :: p in Split(s, Comma) && Strip(p) == t
  {
    if t in Tokens(s) {
      TokenComesFromPiece(s, t);
    }
    if t != [] && exists p :: p in Split(s, Comma) && Strip(p) == t {
      var p :| p in Split(s, Comma) && Strip(p) == t;
      TokenOfPiece(s, p);
    }
  }

  /** Counting the non-blank pieces counts the tokens kept from them. */
  lemma {:induction false} CountIsTokenLength(pieces: seq<string>)
    ensures CountNonBlank(pieces) == |StripNonBlank(pieces)|
  {
    if |pieces| > 0 {
      CountIsTokenLength(pieces[1..]);
      var e := StripEach(pieces);
      assert e[1..] == StripEach(pieces[1..]);
      assert e[0] == Strip(pieces[0]);
    }
  }

  /** The count stored at load time is the length of the token list the detail view
      shows for the same cell. */
  lemma TokenCountIsTokenLength(s: string)
    ensures TokenCount(Some(s)) == |Tokens(s)|
  {
    CountIsTokenLength(Split(s, Comma));
  }

  predicate OnlyCommasAndSpaces(s: string) {
    forall i :: 0 <= i < |s| ==> s[i] == Comma || IsSpace(s[i])
  }

  lemma OnlyCommasAndSpacesStep(s: string)
    requires |s| > 0
    ensures OnlyCommasAndSpaces(s) <==> (s[0] == Comma || IsSpace(s[0])) && OnlyCommasAndSpaces(s[1..])
  {
    assert forall i :: 1 <= i < |s| ==> s[i] == s[1..][i - 1];
  }

  lemma CountAfterComma(s: string)
    requires |s| > 0 && s[0] == Comma
    ensures CountNonBlank(Split(s, Comma)) == CountNonBlank(Split(s[1..], Comma))
  {
    var rest := Split(s[1..], Comma);
    assert Split(s, Comma) == [""] + rest;
    assert ([""] + rest)[1..] == rest;
  }

  lemma BlankCons(c: char, t: string)
    ensures IsBlank([c] + t) <==> IsSpace(c) && IsBlank(t)
  {
    var s := [c] + t;
    assert s[0] == c;
    assert forall i :: 0 <= i < |t| ==> s[i + 1] == t[i];
    if IsSpace(c) && IsBlank(t) {
      forall i | 0 <= i < |s|
        ensures IsSpace(s[i])
      {
        if i > 0 {
          assert s[i] == t[i - 1];
        }
      }
    }
  }

  lemma CountAfterOther(s: string)
    requires |s| > 0 && s[0] != Comma
    ensures CountNonBlank(Split(s, Comma)) == 0 <==>
      IsSpace(s[0]) && CountNonBlank(Split(s[1..], Comma)) == 0
  {
    var rest := Split(s[1..], Comma);
    var head := [s[0]] + rest[0];
    var pieces := [head] + rest[1..];
    assert Split(s, Comma) == pieces;
    assert pieces[1..] == rest[1..];
    assert CountNonBlank(pieces) == (if Strip(head) != "" then 1 else 0) + CountNonBlank(rest[1..]);
    assert CountNonBlank(rest) == (if Strip(rest[0]) != "" then 1 else 0) + CountNonBlank(rest[1..]);
    BlankCons(s[0], rest[0]);
    StripEmptyIffBlank(head);
    StripEmptyIffBlank(rest[0]);
  }

  /** A cell counts zero tokens exactly when it holds nothing but commas and white
      space. */
  lemma {:induction false} TokenCountZero(s: string)
    ensures TokenCount(Some(s)) == 0 <==> OnlyCommasAndSpaces(s)
    decreases |s|
  {
    if |s| > 0 {
      TokenCountZero(s[1..]);
      OnlyCommasAndSpacesStep(s);
      if s[0] == Comma {
        CountAfterComma(s);
      } else {
        CountAfterOther(s);
      }
    }
  }

  /** Counting a cell assembled from comma-free parts counts its non-blank parts. */
  lemma TokenCountOfJoin(parts: seq<string>)
    requires |parts| > 0
    requires forall i :: 0 <= i < |parts| ==> Comma !in parts[i]
    ensures TokenCount(Some(Join(parts, Comma))) == CountNonBlank(parts)
  {
    SplitJoin(parts, Comma);
  }

  /** The benchmark cell `"http://a, http://b,"` counts two URLs: the padded second
      URL counts and the empty piece after the trailing comma does not. */
  lemma TrailingCommaExample()
    ensures TokenCount(Some("http://a, http://b,")) == 2
  {
    var parts := ["http://a", " http://b", ""];
    TrailingCommaPieces();
    TokenCountOfJoin(parts);
    TrailingCommaPiecesCount();
  }

  lemma TrailingCommaPieces()
    ensures Join(["http://a", " http://b", ""], Comma) == "http://a, http://b,"
  {
    var parts := ["http://a", " http://b", ""];
    var a, b := parts[0], parts[1];
    assert parts[1..] == [b, ""] && parts[2..] == [""];
    assert Join(parts[2..], Comma) == "";
    assert Join(parts[1..], Comma) == b + [Comma] + "";
    var j := a + [Comma] + (b + [Comma] + "");
    assert Join(parts, Comma) == j;
    var l := "http://a, http://b,";
    assert |j| == |l| == 19;
    forall i | 0 <= i < 19
      ensures j[i] == l[i]
    {
    }
  }

  lemma TrailingCommaPiecesCount()
    ensures CountNonBlank(["http://a", " http://b", ""]) == 2
  {
    var parts := ["http://a", " http://b", ""];
    assert parts[0][0] == 'h' && parts[1][1] == 'h';
    CountTwoOfThree(parts[0], parts[1], parts[2]);
    assert parts == [parts[0], parts[1], parts[2]];
  }

  lemma CountTwoOfThree(a: string, b: string, c: string)
    requires !IsBlank(a) && !IsBlank(b) && IsBlank(c)
    ensures CountNonBlank([a, b, c]) == 2
  {
    StripEmptyIffBlank(a);
    StripEmptyIffBlank(b);
    StripEmptyIffBlank(c);
    var parts := [a, b, c];
    assert parts[1..] == [b, c] && parts[1..][1..] == [c] && [c][1..] == [];
    assert CountNonBlank([c]) == 0;
    assert CountNonBlank([b, c]) == 1;
  }

  /** A cell of two comma-free entries splits into exactly those two pieces. */
  lemma SplitTwo(a: string, b: string)
    requires Comma !in a && Comma !in b
    ensures Split(a + [Comma] + b, Comma) == [a, b]
  {
    var parts := [a, b];
    assert parts[1..] == [b];
    SplitJoin(parts, Comma);
  }

  // ---------------------------------------------------------------------------
  // sorted(set(xs))

  predicate StrictlySorted(xs: seq<string>) {
    forall i, j :: 0 <= i < j < |xs| ==> Less(xs[i], xs[j])
  }

  lemma SortedHeadBelowRest(ys: seq<string>)
    requires StrictlySorted(ys) && |ys| > 0
    ensures forall z :: z in ys[1..] ==> Less(ys[0], z)
  {
    forall z | z in ys[1..]
      ensures Less(ys[0], z)
    {
      var k :| 0 <= k < |ys[1..]| && ys[1..][k] == z;
      assert ys[k + 1] == z;
    }
  }

  lemma PrependSmaller(x: string, ys: seq<string>)
    requires StrictlySorted(ys) && |ys| > 0 && Less(x, ys[0])
    ensures StrictlySorted([x] + ys)
  {
    forall j | 0 <= j < |ys|
      ensures Less(x, ys[j])
    {
      if j > 0 {
        LessTransitive(x, ys[0], ys[j]);
      }
    }
  }

  /** Inserts `x` into a strictly increasing list unless it is already there. */
  function Insert(x: string, ys: seq<string>): (r: seq<string>)
    requires StrictlySorted(ys)
    ensures StrictlySorted(r)
    ensures forall z :: z in r <==> z == x || z in ys
    decreases |ys|
  {
    if |ys| == 0 then [x]
    else if x == ys[0] then ys
    else if Less(x, ys[0]) then
      PrependSmaller(x, ys);
      [x] + ys
    else
      LessTotal(x, ys[0]);
      SortedHeadBelowRest(ys);
      assert forall z :: z in ys <==> z == ys[0] || z in ys[1..];
      var rest := Insert(x, ys[1..]);
      assert forall z :: z in rest ==> Less(ys[0], z);
      [ys[0]] + rest
  }

  /** Python's `sorted(set(xs))`: strictly increasing, and holding exactly the
      values of `xs`. */
  function SortedDistinct(xs: seq<string>): (r: seq<string>)
    ensures StrictlySorted(r)
    ensures forall z :: z in r <==> z in xs
  {
    if |xs| == 0 then []
    else
      assert forall z :: z in xs <==> z == xs[0] || z in xs[1..];
      Insert(xs[0], SortedDistinct(xs[1..]))
  }

  /** A strictly increasing list has no value twice. */
  lemma SortedDistinctHasNoDuplicates(xs: seq<string>)
    ensures var r := SortedDistinct(xs);
      forall i, j :: 0 <= i < j < |r| ==> r[i] != r[j]
  {
    var r := SortedDistinct(xs);
    forall i, j | 0 <= i < j < |r|
      ensures r[i] != r[j]
    {
      LessIrreflexive(r[i]);
    }
  }
}
