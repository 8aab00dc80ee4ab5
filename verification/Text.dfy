/** Splitting and joining text at one character: what the framing, the splitters and the line reader share. */
module Text {
  const NPOS: int := -1

  /** std::string::find(c, start): the first occurrence at or after start, NPOS if there is none. */
  function Find(s: string, c: char, start: nat): (k: int)
    ensures k == NPOS || (start <= k < |s| && s[k] == c)
    ensures forall i :: start <= i < (if k == NPOS then |s| else k) ==> s[i] != c
    decreases |s| - start
  {
    if start >= |s| then NPOS else if s[start] == c then start else Find(s, c, start + 1)
  }

  /** The pieces between the occurrences of c; one more than there are occurrences. */
  function Split(s: string, c: char): (pieces: seq<string>)
    ensures |pieces| >= 1
  {
    var k := Find(s, c, 0);
    if k == NPOS then [s] else [s[..k]] + Split(s[k + 1..], c)
  }

  function Join(pieces: seq<string>, glue: string): string {
    if pieces == [] then ""
    else if |pieces| == 1 then pieces[0]
    else pieces[0] + glue + Join(pieces[1..], glue)
  }

  function Last(pieces: seq<string>): string
    requires pieces != []
  {
    pieces[|pieces| - 1]
  }

  function Init(pieces: seq<string>): seq<string>
    requires pieces != []
  {
    pieces[..|pieces| - 1]
  }

  lemma Associate<T>(a: seq<T>, b: seq<T>, c: seq<T>)
    ensures (a + b) + c == a + (b + c)
  {
  }

  lemma InitLast(a: seq<string>, b: seq<string>)
    requires b != []
    ensures Init(a + b) == a + Init(b) && Last(a + b) == Last(b)
    ensures Init(b) + [Last(b)] == b
  {
  }

  /** A string without c is its own only piece. */
  lemma SplitOfWhole(s: string, c: char)
    requires c !in s
    ensures Split(s, c) == [s]
  {
  }

  lemma SplitAtFirst(a: string, c: char, b: string)
    requires c !in a
    ensures Split(a + [c] + b, c) == [a] + Split(b, c)
  {
    var s := a + [c] + b;
    assert s[|a|] == c && forall i :: 0 <= i < |a| ==> s[i] == a[i];
    assert s[..|a|] == a && s[|a| + 1..] == b;
  }

  lemma JoinOne(p: string, glue: string)
    ensures Join([p], glue) == p
  {
  }

  lemma JoinCons(p: string, rest: seq<string>, glue: string)
    requires rest != []
    ensures Join([p] + rest, glue) == p + glue + Join(rest, glue)
  {
    assert ([p] + rest)[1..] == rest;
  }

  lemma {:induction false} JoinAfterSplit(s: string, c: char)
    ensures Join(Split(s, c), [c]) == s
    decreases |s|
  {
    var k := Find(s, c, 0);
    if k != NPOS {
      JoinAfterSplit(s[k + 1..], c);
      JoinCons(s[..k], Split(s[k + 1..], c), [c]);
      assert s == s[..k] + [c] + s[k + 1..];
    }
  }

  lemma FoundFirst(s: string, c: char)
    ensures var k := Find(s, c, 0); if k == NPOS then c !in s else c !in s[..k]
  {
  }

  lemma SplitUnfolds(s: string, c: char)
    ensures var k := Find(s, c, 0);
            Split(s, c) == if k == NPOS then [s] else [s[..k]] + Split(s[k + 1..], c)
  {
  }

  lemma CleanCons(p: string, rest: seq<string>, c: char)
    requires c !in p && forall q <- rest :: c !in q
    ensures forall q <- [p] + rest :: c !in q
  {
  }

  lemma {:induction false} PiecesHaveNoDelimiter(s: string, c: char)
    ensures forall p <- Split(s, c) :: c !in p
    decreases |s|
  {
    var k := Find(s, c, 0);
    hide Split, Find;
    FoundFirst(s, c);
    SplitUnfolds(s, c);
    if k == NPOS {
      CleanCons(s, [], c);
      assert [s] + [] == [s];
    } else {
      PiecesHaveNoDelimiter(s[k + 1..], c);
      CleanCons(s[..k], Split(s[k + 1..], c), c);
    }
  }

  lemma {:induction false} SplitAfterJoin(pieces: seq<string>, c: char)
    requires pieces != [] && forall p <- pieces :: c !in p
    ensures Split(Join(pieces, [c]), c) == pieces
    decreases |pieces|
  {
    hide Split, Join;
    var p, rest := pieces[0], pieces[1..];
    assert pieces == [p] + rest && p in pieces;
    if rest == [] {
      JoinOne(p, [c]);
      assert [p] + [] == [p];
      SplitOfWhole(p, c);
    } else {
      SplitAfterJoin(rest, c);
      JoinCons(p, rest, [c]);
      SplitAtFirst(p, c, Join(rest, [c]));
    }
  }

  /** More text only affects the last piece. */
  lemma {:induction false} SplitOfConcat(a: string, b: string, c: char)
    ensures Split(a + b, c) == Init(Split(a, c)) + Split(Last(Split(a, c)) + b, c)
    decreases |a|
  {
    var k := Find(a, c, 0);
    if k == NPOS {
      assert Init(Split(a, c)) == [];
    } else {
      var p, q := a[..k], a[k + 1..];
      SplitOfConcat(q, b, c);
      assert a == p + [c] + q && a + b == p + [c] + (q + b);
      SplitAtFirst(p, c, q + b);
      SplitAtFirst(p, c, q);
      InitLast([p], Split(q, c));
      Associate([p], Init(Split(q, c)), Split(Last(Split(q, c)) + b, c));
    }
  }
}
