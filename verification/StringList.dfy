/** ConfigReader::getStringList: a value cut at runs of commas, blanks and tabs. */
module StringList {
  import opened Text

  predicate IsSep(c: char) {
    c == ',' || c == ' ' || c == '\t'
  }

  predicate AllSep(s: string) {
    forall i :: 0 <= i < |s| ==> IsSep(s[i])
  }

  predicate NoSep(s: string) {
    forall i :: 0 <= i < |s| ==> !IsSep(s[i])
  }

  /** find_first_of(sep, start) for `sep`, find_first_not_of(sep, start) otherwise. */
  function Scan(s: string, sep: bool, start: nat): (k: int)
    ensures k == NPOS || (start <= k < |s| && IsSep(s[k]) == sep)
    ensures forall i :: start <= i < (if k == NPOS then |s| else k) ==> IsSep(s[i]) != sep
    decreases |s| - start
  {
    if start >= |s| then NPOS else if IsSep(s[start]) == sep then start else Scan(s, sep, start + 1)
  }

  /** Tokens and the separator runs after them; the text may end in a run. */
  datatype Tokens = Tokens(tokens: seq<string>, runs: seq<string>)

  function Tokenize(s: string): (t: Tokens)
    ensures t.tokens != []
    decreases |s|
  {
    var index := Scan(s, true, 0);
    if index == NPOS then Tokens([s], [])
    else
      var next := Scan(s, false, index);
      if next == NPOS then Tokens([s[..index]], [s[index..]])
      else
        var rest := Tokenize(s[next..]);
        Tokens([s[..index]] + rest.tokens, [s[index..next]] + rest.runs)
  }

  method GetStringList(str: string) returns (v: seq<string>)
    ensures v == Tokenize(str).tokens
  {
    v := [];
    var start := 0;
    var index := Scan(str, true, start);
    assert str[0..] == str;
    while index != NPOS
      invariant 0 <= start <= |str| && index == Scan(str, true, start)
      invariant Tokenize(str).tokens == v + Tokenize(str[start..]).tokens
      decreases |str| - start
    {
      TokenizeFrom(str, start);
      v := v + [str[start..index]];
      var next := Scan(str, false, index);
      if next == NPOS {
        return v;
      }
      Associate(v[..|v| - 1], [str[start..index]], Tokenize(str[next..]).tokens);
      start := next;
      index := Scan(str, true, start);
    }
    TokenizeFrom(str, start);
    v := v + [str[start..]];
  }

  lemma ScanFrom(s: string, sep: bool, start: nat, from: nat)
    requires start <= from <= |s|
    ensures Scan(s[start..], sep, from - start) ==
            if Scan(s, sep, from) == NPOS then NPOS else Scan(s, sep, from) - start
  {
    var t := s[start..];
    var k, r := Scan(s, sep, from), Scan(t, sep, from - start);
    assert forall i :: 0 <= i < |t| ==> t[i] == s[start + i];
    if r != NPOS {
      assert IsSep(s[start + r]) == sep;
    }
    if k != NPOS {
      assert IsSep(t[k - start]) == sep;
    }
  }

  /** The tokens once the first separator and the end of its run are known. */
  ghost function TokensAt(s: string, start: nat, index: int, next: int): seq<string>
    requires start <= |s| && (index == NPOS || start <= index < |s|) && (next == NPOS || 0 <= next <= |s|)
    requires index != NPOS && next != NPOS ==> next > start
    decreases |s| - start
  {
    if index == NPOS then [s[start..]]
    else [s[start..index]] + if next == NPOS then [] else Tokenize(s[next..]).tokens
  }

  lemma TokenizeUnfolds(s: string)
    ensures var index := Scan(s, true, 0);
            Tokenize(s).tokens == TokensAt(s, 0, index, if index == NPOS then NPOS else Scan(s, false, index))
  {
  }

  lemma TokenizeFrom(s: string, start: nat)
    requires start <= |s|
    ensures var index := Scan(s, true, start);
            Tokenize(s[start..]).tokens ==
                TokensAt(s, start, index, if index == NPOS then NPOS else Scan(s, false, index))
  {
    hide Tokenize, Scan, TokensAt;
    TokenizeUnfolds(s[start..]);
    ScanFrom(s, true, start, start);
    var index := Scan(s, true, start);
    if index == NPOS {
      ShiftedTokens(s, start, NPOS, NPOS);
    } else {
      ScanFrom(s, false, start, index);
      ShiftedTokens(s, start, index, Scan(s, false, index));
    }
  }

  lemma ShiftedTokens(s: string, start: nat, index: int, next: int)
    requires start <= |s| && (index == NPOS || start <= index < |s|)
    requires next == NPOS || start < next <= |s|
    ensures TokensAt(s[start..], 0, if index == NPOS then NPOS else index - start,
                     if next == NPOS then NPOS else next - start) ==
            TokensAt(s, start, index, next)
  {
    hide Tokenize;
    assert s[start..][0..] == s[start..];
    if index != NPOS {
      assert s[start..][0..index - start] == s[start..index];
    }
    if next != NPOS {
      assert s[start..][next - start..] == s[next..];
    }
  }

  // What a token list has to be.

  function Interleave(t: Tokens): string
    decreases |t.tokens|
  {
    if t.tokens == [] then ""
    else if t.runs == [] then t.tokens[0]
    else t.tokens[0] + t.runs[0] + Interleave(Tokens(t.tokens[1..], t.runs[1..]))
  }

  /** Non-empty separator runs between separator-free tokens, of which only the first may be empty. */
  ghost predicate IsTokenList(t: Tokens) {
    && t.tokens != [] && |t.tokens| - 1 <= |t.runs| <= |t.tokens|
    && (forall i :: 0 <= i < |t.tokens| ==> NoSep(t.tokens[i]))
    && (forall i :: 1 <= i < |t.tokens| ==> t.tokens[i] != "")
    && (forall i :: 0 <= i < |t.runs| ==> t.runs[i] != "" && AllSep(t.runs[i]))
  }

  lemma SeparatorsAreThree(s: string)
    ensures NoSep(s) <==> ',' !in s && ' ' !in s && '\t' !in s
    ensures AllSep(s) <==> forall c <- s :: c == ',' || c == ' ' || c == '\t'
  {
    assert forall i :: 0 <= i < |s| ==> s[i] in s;
    assert NoSep(s) <==> forall c <- s :: !IsSep(c);
    assert AllSep(s) <==> forall c <- s :: IsSep(c);
  }

  lemma TokenListMeaning(t: Tokens)
    ensures IsTokenList(t) <==>
            && t.tokens != [] && |t.tokens| - 1 <= |t.runs| <= |t.tokens|
            && (forall i :: 0 <= i < |t.tokens| ==> ',' !in t.tokens[i] && ' ' !in t.tokens[i] && '\t' !in t.tokens[i])
            && (forall i :: 1 <= i < |t.tokens| ==> t.tokens[i] != "")
            && (forall i :: 0 <= i < |t.runs| ==>
                  t.runs[i] != "" && forall c <- t.runs[i] :: c == ',' || c == ' ' || c == '\t')
  {
    forall i | 0 <= i < |t.tokens| {
      SeparatorsAreThree(t.tokens[i]);
    }
    forall i | 0 <= i < |t.runs| {
      SeparatorsAreThree(t.runs[i]);
    }
    hide NoSep, AllSep;
  }

  /** One more token and run in front of a token list. */
  lemma TokenListCons(a: string, b: string, rest: Tokens)
    requires NoSep(a) && b != "" && AllSep(b) && IsTokenList(rest) && rest.tokens[0] != ""
    ensures IsTokenList(Tokens([a] + rest.tokens, [b] + rest.runs))
    ensures Interleave(Tokens([a] + rest.tokens, [b] + rest.runs)) == a + b + Interleave(rest)
  {
    var t := Tokens([a] + rest.tokens, [b] + rest.runs);
    assert t.tokens[1..] == rest.tokens && t.runs[1..] == rest.runs;
    hide NoSep, AllSep;
  }

  lemma LastTokens(a: string, b: string)
    requires NoSep(a)
    ensures IsTokenList(Tokens([a], [])) && Interleave(Tokens([a], [])) == a
    ensures b != "" && AllSep(b) ==> IsTokenList(Tokens([a], [b])) && Interleave(Tokens([a], [b])) == a + b
  {
    assert a + b + "" == a + b;
  }

  /** Where the scans of a text with a separator stop it is cut into a token, a run and a rest. */
  lemma CutAtScans(s: string)
    requires Scan(s, true, 0) != NPOS
    ensures var index := Scan(s, true, 0); var next := Scan(s, false, index);
            && NoSep(s[..index]) && s == s[..index] + s[index..]
            && (next == NPOS ==> s[index..] != "" && AllSep(s[index..]))
            && (next != NPOS ==> index < next && s[index..next] != "" && AllSep(s[index..next])
                                 && s == s[..index] + s[index..next] + s[next..] && !IsSep(s[next..][0]))
  {
    hide Scan;
  }

  lemma {:induction false} TokenizeIsTokenList(s: string)
    ensures IsTokenList(Tokenize(s)) && Interleave(Tokenize(s)) == s
    ensures s != "" && !IsSep(s[0]) ==> Tokenize(s).tokens[0] != ""
    decreases |s|
  {
    var index := Scan(s, true, 0);
    if index == NPOS {
      LastTokens(s, "");
    } else {
      CutAtScans(s);
      var next := Scan(s, false, index);
      hide IsTokenList, Interleave, NoSep, AllSep, Scan;
      if next == NPOS {
        LastTokens(s[..index], s[index..]);
      } else {
        TokenizeIsTokenList(s[next..]);
        TokenListCons(s[..index], s[index..next], Tokenize(s[next..]));
      }
    }
  }

  lemma ScanStopsAt(s: string, sep: bool, start: nat, k: nat)
    requires start <= k <= |s| && (k < |s| ==> IsSep(s[k]) == sep)
    requires forall i :: start <= i < k ==> IsSep(s[i]) != sep
    ensures Scan(s, sep, start) == if k < |s| then k else NPOS
  {
  }

  lemma ThreeParts(a: string, b: string, tail: string)
    ensures var s := a + b + tail;
            s[..|a|] == a && s[|a|..|a| + |b|] == b && s[|a| + |b|..] == tail && (tail == "" ==> s[|a|..] == b)
    ensures forall i :: 0 <= i < |a| ==> (a + b + tail)[i] == a[i]
    ensures forall i :: |a| <= i < |a| + |b| ==> (a + b + tail)[i] == b[i - |a|]
    ensures tail != "" ==> (a + b + tail)[|a| + |b|] == tail[0]
  {
  }

  /** Where the scans stop in a token followed by a run, and maybe by another token. */
  lemma ScansStop(a: string, b: string, tail: string)
    requires NoSep(a) && b != "" && AllSep(b) && (tail == "" || !IsSep(tail[0]))
    ensures var s := a + b + tail;
            Scan(s, true, 0) == |a| && Scan(s, false, |a|) == if tail == "" then NPOS else |a| + |b|
  {
    ThreeParts(a, b, tail);
    var s := a + b + tail;
    hide Scan;
    ScanStopsAt(s, true, 0, |a|);
    ScanStopsAt(s, false, |a|, |a| + |b|);
  }

  lemma {:induction false} OnlyTokenList(t: Tokens)
    requires IsTokenList(t)
    ensures Tokenize(Interleave(t)) == t
    ensures t.tokens[0] != "" ==> Interleave(t) != "" && !IsSep(Interleave(t)[0])
    decreases |t.tokens|
  {
    if t.runs == [] {
      assert t.tokens == [t.tokens[0]];
    } else {
      var a, b := t.tokens[0], t.runs[0];
      var rest := Tokens(t.tokens[1..], t.runs[1..]);
      assert t.tokens == [a] + rest.tokens && t.runs == [b] + rest.runs;
      if rest.tokens != [] {
        assert rest.tokens[0] == t.tokens[1] && IsTokenList(rest);
        OnlyTokenList(rest);
      }
      ScansStop(a, b, Interleave(rest));
      ThreeParts(a, b, Interleave(rest));
    }
  }

  /**
   getStringList returns the tokens of the one and only way to read the text as tokens without comma,
   blank and tab, of which only the first may be empty, between non-empty runs of these three.
   */
  lemma TokensAreUnique(s: string, t: Tokens)
    ensures t == Tokenize(s) <==>
            && t.tokens != [] && |t.tokens| - 1 <= |t.runs| <= |t.tokens|
            && (forall i :: 0 <= i < |t.tokens| ==> ',' !in t.tokens[i] && ' ' !in t.tokens[i] && '\t' !in t.tokens[i])
            && (forall i :: 1 <= i < |t.tokens| ==> t.tokens[i] != "")
            && (forall i :: 0 <= i < |t.runs| ==>
                  t.runs[i] != "" && forall c <- t.runs[i] :: c == ',' || c == ' ' || c == '\t')
            && Interleave(t) == s
  {
    hide NoSep, AllSep, Tokenize, Interleave, IsTokenList;
    TokenListMeaning(t);
    TokenizeIsTokenList(s);
    if IsTokenList(t) && Interleave(t) == s {
      OnlyTokenList(t);
    }
  }
}
