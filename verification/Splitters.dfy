/** The two strSplit overloads of utils/StringUtils.cpp. */
module Splitters {
  import opened Text

  /** OutOfRange is the std::out_of_range that at() and substr() throw. */
  datatype Result = Pieces(pieces: seq<string>) | OutOfRange

  // strSplit(str, char, out)

  function WithoutEmptyEnd(pieces: seq<string>): seq<string>
    requires pieces != []
  {
    if Last(pieces) == "" then Init(pieces) else pieces
  }

  /** Appends the pieces of str to out, except an empty last one. */
  method SplitAtChar(str: string, spliter: char, out: seq<string>) returns (result: seq<string>)
    ensures result == out + WithoutEmptyEnd(Split(str, spliter))
  {
    hide Split, Find;
    result := out;
    var posBegin := 0;
    var posFind := Find(str, spliter, posBegin);
    assert str[0..] == str;
    while posFind != NPOS
      invariant 0 <= posBegin <= |str| && posFind == Find(str, spliter, posBegin)
      invariant result + Split(str[posBegin..], spliter) == out + Split(str, spliter)
      decreases |str| - posBegin
    {
      SplitFrom(str, spliter, posBegin);
      Associate(result, [str[posBegin..posFind]], Split(str[posFind + 1..], spliter));
      result := result + [str[posBegin..posFind]];
      posBegin := posFind + 1;
      posFind := Find(str, spliter, posBegin);
    }
    SplitFrom(str, spliter, posBegin);
    var tmp := str[posBegin..];
    InitLast(result, [tmp]);
    InitLast(out, Split(str, spliter));
    if tmp != "" {
      result := result + [tmp];
    }
  }

  /** The pieces from `start` on, when the next delimiter is at k. */
  ghost function PiecesAt(s: string, c: char, start: nat, k: int): seq<string>
    requires start <= |s| && (k == NPOS || start <= k < |s|)
  {
    if k == NPOS then [s[start..]] else [s[start..k]] + Split(s[k + 1..], c)
  }

  lemma PiecesFromStart(s: string, c: char)
    ensures Split(s, c) == PiecesAt(s, c, 0, Find(s, c, 0))
  {
  }

  /** Searching from a position is searching the rest. */
  lemma SplitFrom(s: string, c: char, start: nat)
    requires start <= |s|
    ensures Split(s[start..], c) == PiecesAt(s, c, start, Find(s, c, start))
  {
    hide Split, Find, PiecesAt;
    FindFrom(s, c, start);
    PiecesFromStart(s[start..], c);
    PiecesShift(s, c, start, Find(s, c, start));
  }

  lemma PiecesShift(s: string, c: char, start: nat, k: int)
    requires start <= |s| && (k == NPOS || start <= k < |s|)
    ensures PiecesAt(s[start..], c, 0, if k == NPOS then NPOS else k - start) == PiecesAt(s, c, start, k)
  {
    hide Split;
    assert s[start..][0..] == s[start..];
    if k != NPOS {
      assert s[start..][0..k - start] == s[start..k];
      assert s[start..][k - start + 1..] == s[k + 1..];
    }
  }

  lemma FindFrom(s: string, c: char, start: nat)
    requires start <= |s|
    ensures Find(s[start..], c, 0) == if Find(s, c, start) == NPOS then NPOS else Find(s, c, start) - start
  {
    var k, r := Find(s, c, start), Find(s[start..], c, 0);
    assert forall i :: 0 <= i < |s| - start ==> s[start..][i] == s[start + i];
    if r != NPOS {
      assert s[start + r] == c;
    }
    if k != NPOS {
      assert s[start..][k - start] == c;
    }
  }

  /** Joining the pieces gives the text back, short of one delimiter if the text ends in one. */
  lemma CharPiecesRebuild(s: string, c: char)
    ensures var pieces := WithoutEmptyEnd(Split(s, c));
            s == Join(pieces, [c]) + if s != "" && s[|s| - 1] == c then [c] else ""
  {
    var all := Split(s, c);
    JoinAfterSplit(s, c);
    PiecesHaveNoDelimiter(s, c);
    InitLast([], all);
    JoinSnoc(Init(all), Last(all), [c]);
    if Last(all) == "" {
      if Init(all) != [] {
        EndsWith(s, Join(Init(all), [c]) + [c], "", c);
      }
    } else {
      EndsWith(s, s[..|s| - |Last(all)|], Last(all), c);
    }
  }

  lemma SplitWithTrailing(t: string, c: char)
    ensures Split(t + [c], c) == Split(t, c) + [""]
  {
    hide Split, Find;
    var pieces := Split(t, c);
    var last := Last(pieces);
    PiecesHaveNoDelimiter(t, c);
    assert last in pieces;
    SplitOfConcat(t, [c], c);
    assert last + [c] == last + [c] + "";
    SplitAtFirst(last, c, "");
    SplitOfWhole("", c);
    InitLast([], pieces);
    Associate(Init(pieces), [last], [""]);
  }

  lemma JoinEndsIn(pieces: seq<string>, c: char)
    requires pieces != [] && Last(pieces) == "" && Join(pieces, [c]) != ""
    ensures Join(pieces, [c])[|Join(pieces, [c])| - 1] == c
  {
    InitLast([], pieces);
    JoinSnoc(Init(pieces), "", [c]);
    assert Join(Init(pieces), [c]) + [c] + "" == Join(Init(pieces), [c]) + [c];
    hide Join;
  }

  lemma PiecesAreFound(s: string, c: char, pieces: seq<string>)
    requires s != "" && pieces != [] && forall p <- pieces :: c !in p
    requires s == Join(pieces, [c]) + if s[|s| - 1] == c then [c] else ""
    ensures WithoutEmptyEnd(Split(s, c)) == pieces
  {
    hide Split, Find, Join;
    var t := Join(pieces, [c]);
    SplitAfterJoin(pieces, c);
    if s[|s| - 1] == c {
      SplitWithTrailing(t, c);
      InitLast(pieces, [""]);
      assert Init([""]) == [] && pieces + [] == pieces;
    } else {
      assert t + "" == t;
      if Last(pieces) == "" {
        JoinEndsIn(pieces, c);
      }
    }
  }

  /**
   The pieces are the one list of delimiter-free pieces that gives the text back so: none for the empty
   text, else at least one.
   */
  lemma CharPiecesAreUnique(s: string, c: char, pieces: seq<string>)
    ensures pieces == WithoutEmptyEnd(Split(s, c)) <==>
            && (pieces == [] <==> s == "") && (forall p <- pieces :: c !in p)
            && s == Join(pieces, [c]) + if s != "" && s[|s| - 1] == c then [c] else ""
  {
    var all := Split(s, c);
    CharPiecesRebuild(s, c);
    PiecesHaveNoDelimiter(s, c);
    InitLast([], all);
    JoinSnoc(Init(all), Last(all), [c]);
    SplitOfWhole("", c);
    if pieces == WithoutEmptyEnd(all) {
      assert forall p <- pieces :: p in all;
    } else if s != "" && pieces != [] && (forall p <- pieces :: c !in p)
              && s == Join(pieces, [c]) + (if s[|s| - 1] == c then [c] else "") {
      PiecesAreFound(s, c, pieces);
    }
    hide Split, Find, WithoutEmptyEnd;
  }

  lemma EndsWith(s: string, a: string, b: string, c: char)
    requires s == a + b && c !in b
    ensures s != "" && s[|s| - 1] == c <==> b == "" && a != "" && a[|a| - 1] == c
  {
    if b != "" {
      assert s[|s| - 1] == b[|b| - 1];
    }
  }

  lemma {:induction false} JoinSnoc(pieces: seq<string>, p: string, glue: string)
    ensures Join(pieces + [p], glue) == if pieces == [] then p else Join(pieces, glue) + glue + p
    decreases |pieces|
  {
    if pieces != [] {
      JoinSnoc(pieces[1..], p, glue);
      JoinCons(pieces[0], pieces[1..] + [p], glue);
      assert pieces + [p] == [pieces[0]] + (pieces[1..] + [p]);
      if |pieces| > 1 {
        JoinCons(pieces[0], pieces[1..], glue);
        assert pieces == [pieces[0]] + pieces[1..];
        JoinShift(pieces[0], glue, Join(pieces[1..], glue), p);
      }
    }
  }

  lemma JoinShift(a: string, glue: string, b: string, p: string)
    ensures a + glue + (b + glue + p) == (a + glue + b) + glue + p
  {
  }

  // strSplit(str, string, out)

  /** Cuts at the delimiter's first character and skips the delimiter's length. */
  function SplitSkipping(s: string, c: char, skip: nat): Result
    requires skip >= 1
    decreases |s|
  {
    var k := Find(s, c, 0);
    if k == NPOS then Pieces([s])
    else if k + skip > |s| then OutOfRange
    else Prepend([s[0..k]], SplitSkipping(s[k + skip..], c, skip))
  }

  function Prepend(out: seq<string>, r: Result): Result {
    match r
    case OutOfRange => OutOfRange
    case Pieces(rest) => Pieces(out + rest)
  }

  /** Replaces out by the pieces; str.find and substr are called with the positions of the source. */
  method SplitAtString(str: string, split: string) returns (result: Result)
    ensures result == if split == "" then OutOfRange else SplitSkipping(str, split[0], |split|)
  {
    if split == "" {
      return OutOfRange;
    }
    result := CutLoop(str, split[0], |split|);
  }

  method CutLoop(str: string, c: char, skip: nat) returns (result: Result)
    requires skip >= 1
    ensures result == SplitSkipping(str, c, skip)
  {
    hide SplitSkipping, Find, Prepend, Rest, SkipAt;
    var out: seq<string> := [];
    SkipStarts(str, c, skip);
    var posS := 0;
    var posE := Find(str, c, posS);
    while posE != NPOS
      invariant posE == Find(str, c, posS)
      invariant SplitSkipping(str, c, skip) == Prepend(out, Rest(str, c, skip, posS))
      decreases |str| - posS
    {
      SkipContinues(str, c, skip, out, posS);
      var piece := str[posS..posE];
      out := out + [piece];
      posS := posE + skip;
      posE := Find(str, c, posS);
    }
    SkipEnds(str, c, skip, out, posS);
    if posS > |str| {
      return OutOfRange;
    }
    return Pieces(out + [str[posS..]]);
  }

  /** Splitting the text from a position on, which may lie behind its end. */
  ghost function Rest(s: string, c: char, skip: nat, start: nat): Result
    requires skip >= 1
  {
    if start > |s| then OutOfRange else SplitSkipping(s[start..], c, skip)
  }

  lemma PrependLaws(out: seq<string>, p: string, r: Result)
    ensures Prepend([], r) == r && Prepend(out, OutOfRange) == OutOfRange
    ensures Prepend(out, Pieces([p])) == Pieces(out + [p])
    ensures Prepend(out, Prepend([p], r)) == Prepend(out + [p], r)
  {
    if r.Pieces? {
      Associate(out, [p], r.pieces);
      assert [] + r.pieces == r.pieces;
    }
  }

  /** The outcome from `start` on, when the delimiter's first character is next at k. */
  ghost function SkipAt(s: string, c: char, skip: nat, start: nat, k: int): Result
    requires start <= |s| && skip >= 1 && (k == NPOS || start <= k < |s|)
  {
    if k == NPOS then Pieces([s[start..]]) else Prepend([s[start..k]], Rest(s, c, skip, k + skip))
  }

  lemma SkipUnfolds(s: string, c: char, skip: nat)
    requires skip >= 1
    ensures SplitSkipping(s, c, skip) == SkipAt(s, c, skip, 0, Find(s, c, 0))
  {
    hide Find;
    assert s[0..] == s;
  }

  lemma SkipFrom(s: string, c: char, skip: nat, start: nat)
    requires skip >= 1
    ensures Rest(s, c, skip, start) ==
            if start > |s| then OutOfRange else SkipAt(s, c, skip, start, Find(s, c, start))
  {
    hide SplitSkipping, Find, SkipAt;
    if start <= |s| {
      FindFrom(s, c, start);
      SkipUnfolds(s[start..], c, skip);
      SkipShift(s, c, skip, start, Find(s, c, start));
    }
  }

  lemma SkipShift(s: string, c: char, skip: nat, start: nat, k: int)
    requires start <= |s| && skip >= 1 && (k == NPOS || start <= k < |s|)
    ensures SkipAt(s[start..], c, skip, 0, if k == NPOS then NPOS else k - start) == SkipAt(s, c, skip, start, k)
  {
    hide SplitSkipping, Prepend;
    assert s[start..][0..] == s[start..];
    if k != NPOS {
      assert s[start..][0..k - start] == s[start..k];
      if k + skip <= |s| {
        assert s[start..][k - start + skip..] == s[k + skip..];
      }
    }
  }

  lemma SkipStarts(s: string, c: char, skip: nat)
    requires skip >= 1
    ensures SplitSkipping(s, c, skip) == Prepend([], Rest(s, c, skip, 0))
  {
    assert s[0..] == s;
    hide SplitSkipping;
    PrependLaws([], "", Rest(s, c, skip, 0));
  }

  lemma SkipContinues(s: string, c: char, skip: nat, out: seq<string>, start: nat)
    requires skip >= 1 && Find(s, c, start) != NPOS
    ensures var k := Find(s, c, start);
            Prepend(out, Rest(s, c, skip, start)) == Prepend(out + [s[start..k]], Rest(s, c, skip, k + skip))
  {
    SkipFrom(s, c, skip, start);
    hide Find, Prepend, Rest;
    var k := Find(s, c, start);
    PrependLaws(out, s[start..k], Rest(s, c, skip, k + skip));
  }

  lemma SkipEnds(s: string, c: char, skip: nat, out: seq<string>, start: nat)
    requires skip >= 1 && Find(s, c, start) == NPOS
    ensures Prepend(out, Rest(s, c, skip, start)) ==
            if start > |s| then OutOfRange else Pieces(out + [s[start..]])
  {
    SkipFrom(s, c, skip, start);
    hide Find, Prepend, Rest;
    PrependLaws(out, if start > |s| then "" else s[start..], OutOfRange);
  }

  /** With a one-character delimiter the string overload never throws and yields every piece. */
  lemma {:induction false} OneCharacterDelimiter(s: string, c: char)
    ensures SplitSkipping(s, c, 1) == Pieces(Split(s, c))
    ensures Join(SplitSkipping(s, c, 1).pieces, [c]) == s
    decreases |s|
  {
    JoinAfterSplit(s, c);
    var k := Find(s, c, 0);
    SkipUnfolds(s, c, 1);
    SplitUnfolds(s, c);
    if k != NPOS {
      OneCharacterDelimiter(s[k + 1..], c);
    }
    hide SplitSkipping, Split, Find, Join;
  }

  /** Pieces in which the delimiter's first character does not occur. */
  ghost predicate Clean(pieces: seq<string>, c: char) {
    pieces != [] && forall p <- pieces :: c !in p
  }

  lemma {:induction false} SkippingYieldsClean(s: string, c: char, skip: nat)
    requires skip >= 1 && SplitSkipping(s, c, skip).Pieces?
    ensures Clean(SplitSkipping(s, c, skip).pieces, c)
    decreases |s|
  {
    var k := Find(s, c, 0);
    if k != NPOS {
      SkippingYieldsClean(s[k + skip..], c, skip);
    }
  }

  lemma FindInJoined(p: string, split: string, tail: string)
    requires split != "" && split[0] !in p
    ensures var s := p + split + tail;
            Find(s, split[0], 0) == |p| && s[0..|p|] == p && s[|p| + |split|..] == tail
  {
    var s := p + split + tail;
    assert s[|p|] == split[0];
    assert forall i :: 0 <= i < |p| ==> s[i] == p[i];
  }

  /** Clean pieces joined by the delimiter are found again. */
  lemma {:induction false} SkippingAfterJoin(pieces: seq<string>, split: string)
    requires split != "" && Clean(pieces, split[0])
    ensures SplitSkipping(Join(pieces, split), split[0], |split|) == Pieces(pieces)
    decreases |pieces|
  {
    var p, rest := pieces[0], pieces[1..];
    assert pieces == [p] + rest && p in pieces;
    if rest == [] {
      SplitOfWhole(p, split[0]);
    } else {
      SkippingAfterJoin(rest, split);
      FindInJoined(p, split, Join(rest, split));
      JoinCons(p, rest, split);
      hide Find, Join;
    }
  }

  /**
   For longer delimiters joining the pieces gives the text back exactly when the text is a join at all
   of pieces without the delimiter's first character.
   */
  lemma LongDelimiterRebuildsExactly(s: string, split: string)
    requires split != ""
    ensures var r := SplitSkipping(s, split[0], |split|);
            r.Pieces? && Join(r.pieces, split) == s <==>
            exists pieces :: Clean(pieces, split[0]) && Join(pieces, split) == s
  {
    hide Join, Find;
    var r := SplitSkipping(s, split[0], |split|);
    if r.Pieces? && Join(r.pieces, split) == s {
      SkippingYieldsClean(s, split[0], |split|);
    } else if pieces :| Clean(pieces, split[0]) && Join(pieces, split) == s {
      SkippingAfterJoin(pieces, split);
    }
  }

  /** "a:" cut with the delimiter "::" throws, and "a:xb" loses a character. */
  lemma LongDelimiterFails()
    ensures SplitSkipping("a:", ':', 2) == OutOfRange
    ensures SplitSkipping("a:xb", ':', 2) == Pieces(["a", "b"]) && Join(["a", "b"], "::") == "a::b"
  {
    assert Find("a:", ':', 0) == 1;
    assert Find("a:xb", ':', 0) == 1;
    assert "a:xb"[3..] == "b" && "a:xb"[..1] == "a";
    assert Find("b", ':', 0) == NPOS;
    assert Join(["b"], "::") == "b";
    JoinCons("a", ["b"], "::");
    assert ["a"] + ["b"] == ["a", "b"];
  }
}
