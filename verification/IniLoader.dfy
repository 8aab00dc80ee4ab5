/** ConfigReader: loading a whole file, looking values up, and the round trip through written text. */
module IniLoader {
  import opened Options
  import opened Text
  import opened IniLines
  import Splitters

  type Sections = map<string, map<string, string>>

  /** The state of load; NullSection is the call m->find on the null m, undefined in C++. */
  datatype Progress = Running(sections: Sections, current: Option<string>) | NullSection

  function Step(p: Progress, line: string): Progress {
    if p.NullSection? then p
    else
      match Parse(line)
      case SectionLine(name) =>
        Running(if name in p.sections then p.sections else p.sections[name := map[]], Some(name))
      case Assignment(key, value) =>
        if p.current.None? || p.current.value !in p.sections then NullSection
        else p.(sections := p.sections[p.current.value := p.sections[p.current.value][key := value]])
      case Ignored => p
  }

  /** The first n lines, one after the other. */
  function ReadLines(p: Progress, lines: seq<string>, n: nat): Progress
    requires n <= |lines|
  {
    if n == 0 then p else Step(ReadLines(p, lines, n - 1), lines[n - 1])
  }

  function LoadLines(before: Sections, lines: seq<string>): Progress {
    ReadLines(Running(before, None), lines, |lines|)
  }

  datatype Outcome = NotOpened | Loaded | Undefined

  class ConfigReader {
    var sections: Sections

    constructor ()
      ensures sections == map[]
    {
      sections := map[];
    }

    method GetString(section: string, key: string, defaultValue: string) returns (value: string)
      ensures value == if section in sections && key in sections[section] then sections[section][key] else defaultValue
    {
      if section in sections {
        if key in sections[section] {
          return sections[section][key];
        }
      }
      return defaultValue;
    }

    /** The loop body of load for one line; m is the section in force, None while m is null. */
    method ReadLine(line: string, m: Option<string>) returns (m': Option<string>, defined: bool)
      requires m.Some? ==> m.value in sections
      modifies this
      ensures Step(Running(old(sections), m), line) == if defined then Running(sections, m') else NullSection
      ensures defined && m'.Some? ==> m'.value in sections
    {
      m', defined := m, true;
      var found, section := IsSection(line);
      if found {
        if section !in sections {
          sections := sections[section := map[]];
        }
        m' := Some(section);
        return;
      }
      var equPos := Find(line, '=', 0);
      if equPos == NPOS {
        return;
      }
      var key := TrimBoth(line[..equPos]);
      var value := TrimBoth(line[equPos + 1..]);
      if key == "" || key[0] == '#' || key[0] == ';' {
        return;
      }
      if m.None? {
        defined := false;
        return;
      }
      sections := sections[m.value := sections[m.value][key := value]];
    }

    /** `file` is the text behind the path, None if it cannot be opened. */
    method Load(file: Option<string>) returns (outcome: Outcome, ghost last: Option<string>)
      modifies this
      ensures file.None? ==> outcome == NotOpened && sections == old(sections)
      ensures file.Some? ==>
                LoadLines(old(sections), Split(file.value, '\n')) ==
                  (if outcome == Loaded then Running(sections, last) else NullSection)
                && outcome != NotOpened
    {
      if file.None? {
        return NotOpened, None;
      }
      var text := file.value;
      ghost var lines := Split(text, '\n');
      ghost var n := 0;
      ghost var before := sections;
      var pos, eof := 0, false;
      var m: Option<string> := None;
      assert ReadLines(Running(before, None), lines, 0) == Running(before, None);
      assert text[0..] == text;
      hide Step, Split, Find, ReadLines;
      while !eof
        invariant 0 <= pos <= |text| && 0 <= n <= |lines| && (n == |lines| <==> eof)
        invariant !eof ==> Split(text[pos..], '\n') == lines[n..]
        invariant ReadLines(Running(before, None), lines, n) == Running(sections, m)
        invariant m.Some? ==> m.value in sections
        decreases |lines| - n
      {
        var line;
        line, pos, eof := GetLine(text, pos);
        HeadAndTail(lines, n, line, if eof then [] else Split(text[pos..], '\n'));
        n := n + 1;
        ReadOneMore(Running(before, None), lines, n - 1);
        var defined;
        m, defined := ReadLine(line, m);
        if !defined {
          NullStays(Running(before, None), lines, n);
          return Undefined, m;
        }
      }
      return Loaded, m;
    }
  }

  /** getline: the text up to the next newline; at the last line the stream reaches its end. */
  method GetLine(text: string, pos: nat) returns (line: string, pos': nat, eof: bool)
    requires pos <= |text|
    ensures pos' <= |text|
    ensures Split(text[pos..], '\n') == [line] + if eof then [] else Split(text[pos'..], '\n')
  {
    NextLine(text, pos);
    var k := Find(text, '\n', pos);
    if k == NPOS {
      line, pos', eof := text[pos..], |text|, true;
    } else {
      line, pos', eof := text[pos..k], k + 1, false;
    }
  }

  lemma ReadOneMore(p: Progress, lines: seq<string>, n: nat)
    requires n < |lines|
    ensures ReadLines(p, lines, n + 1) == Step(ReadLines(p, lines, n), lines[n])
  {
  }

  lemma HeadAndTail(lines: seq<string>, n: nat, line: string, rest: seq<string>)
    requires n < |lines| && lines[n..] == [line] + rest
    ensures line == lines[n] && rest == lines[n + 1..]
  {
    assert lines[n..][1..] == lines[n + 1..];
  }

  lemma NextLine(text: string, pos: nat)
    requires pos <= |text|
    ensures var k := Find(text, '\n', pos);
            Split(text[pos..], '\n') == if k == NPOS then [text[pos..]] else [text[pos..k]] + Split(text[k + 1..], '\n')
  {
    Splitters.SplitFrom(text, '\n', pos);
  }

  lemma {:induction false} NullStays(p: Progress, lines: seq<string>, n: nat)
    requires n <= |lines| && ReadLines(p, lines, n).NullSection?
    ensures ReadLines(p, lines, |lines|).NullSection?
    decreases |lines| - n
  {
    if n < |lines| {
      NullStays(p, lines, n + 1);
    }
  }

  // What a file means, without reading it line by line.

  /** The section in force after the first n lines: the last one named. */
  function CurrentAt(lines: seq<string>, n: nat): Option<string>
    requires n <= |lines|
  {
    if n == 0 then None
    else
      match Parse(lines[n - 1])
      case SectionLine(name) => Some(name)
      case _ => CurrentAt(lines, n - 1)
  }

  /** Line i gives the key of the section a value. */
  predicate Assigns(lines: seq<string>, i: nat, section: string, key: string)
    requires i < |lines|
  {
    CurrentAt(lines, i) == Some(section) && Parse(lines[i]).Assignment? && Parse(lines[i]).key == key
  }

  predicate HomelessKey(lines: seq<string>, i: nat)
    requires i < |lines|
  {
    CurrentAt(lines, i) == None && Parse(lines[i]).Assignment?
  }

  /** The value the last assignment among the first n lines gives. */
  function LastValue(lines: seq<string>, n: nat, section: string, key: string): Option<string>
    requires n <= |lines|
  {
    if n == 0 then None
    else if Assigns(lines, n - 1, section, key) then Some(Parse(lines[n - 1]).value)
    else LastValue(lines, n - 1, section, key)
  }

  lemma {:induction false} LastValueIsTheLast(lines: seq<string>, n: nat, section: string, key: string, i: nat)
    requires i < n <= |lines| && Assigns(lines, i, section, key)
    requires forall j :: i < j < n ==> !Assigns(lines, j, section, key)
    ensures LastValue(lines, n, section, key) == Some(Parse(lines[i]).value)
    decreases n
  {
    if i < n - 1 {
      LastValueIsTheLast(lines, n - 1, section, key, i);
    }
  }

  predicate Named(lines: seq<string>, n: nat, section: string)
    requires n <= |lines|
  {
    exists i :: 0 <= i < n && Parse(lines[i]) == SectionLine(section)
  }

  function Value(sections: Sections, section: string, key: string): Option<string> {
    if section in sections && key in sections[section] then Some(sections[section][key]) else None
  }

  /** The last assignment of a key wins; what no line names is as before. */
  ghost predicate Meaning(before: Sections, lines: seq<string>, n: nat, after: Sections)
    requires n <= |lines|
  {
    && (forall s :: s in after <==> s in before || Named(lines, n, s))
    && (forall s, k :: Value(after, s, k) ==
          if LastValue(lines, n, s, k).Some? then LastValue(lines, n, s, k) else Value(before, s, k))
  }

  ghost predicate Good(before: Sections, lines: seq<string>, n: nat)
    requires n <= |lines|
  {
    var p := ReadLines(Running(before, None), lines, n);
    && p.Running? && p.current == CurrentAt(lines, n)
    && (p.current.Some? ==> p.current.value in p.sections)
    && Meaning(before, lines, n, p.sections)
  }

  /** What one line does to one key, and to the set of sections. */
  lemma StepValue(p: Progress, line: string, s: string, k: string)
    requires p.Running? && Step(p, line).Running?
    ensures Value(Step(p, line).sections, s, k) ==
            if Parse(line).Assignment? && p.current == Some(s) && Parse(line).key == k then Some(Parse(line).value)
            else Value(p.sections, s, k)
    ensures s in Step(p, line).sections <==> s in p.sections || Parse(line) == SectionLine(s)
  {
    hide Parse;
  }

  lemma StepMeaning(before: Sections, lines: seq<string>, n: nat)
    requires n < |lines| && Good(before, lines, n) && !HomelessKey(lines, n)
    ensures Good(before, lines, n + 1)
  {
    hide Parse;
    var p := ReadLines(Running(before, None), lines, n);
    var after := Step(p, lines[n]).sections;
    forall s ensures s in after <==> s in before || Named(lines, n + 1, s) {
      StepValue(p, lines[n], s, "");
    }
    forall s, k ensures Value(after, s, k) ==
        if LastValue(lines, n + 1, s, k).Some? then LastValue(lines, n + 1, s, k) else Value(before, s, k)
    {
      StepValue(p, lines[n], s, k);
    }
  }

  lemma HomelessStep(before: Sections, lines: seq<string>, n: nat)
    requires n < |lines| && Good(before, lines, n) && HomelessKey(lines, n)
    ensures ReadLines(Running(before, None), lines, n + 1).NullSection?
  {
    hide Parse, Meaning;
  }

  /**
   load runs into the null section pointer exactly when a key precedes every section. Otherwise the
   map it leaves is the one in which the last assignment of each key wins.
   */
  lemma {:induction false} LoadMeaning(before: Sections, lines: seq<string>, n: nat)
    requires n <= |lines|
    ensures ReadLines(Running(before, None), lines, n).NullSection? <==>
            exists i :: 0 <= i < n && HomelessKey(lines, i)
    ensures (forall i :: 0 <= i < n ==> !HomelessKey(lines, i)) ==> Good(before, lines, n)
    decreases n
  {
    hide Parse, Meaning;
    if n > 0 {
      LoadMeaning(before, lines, n - 1);
      if i :| 0 <= i < n - 1 && HomelessKey(lines, i) {
      } else if HomelessKey(lines, n - 1) {
        HomelessStep(before, lines, n - 1);
      } else {
        StepMeaning(before, lines, n - 1);
      }
    } else {
      EmptyMeaning(before, lines);
    }
  }

  lemma EmptyMeaning(before: Sections, lines: seq<string>)
    ensures Meaning(before, lines, 0, before)
  {
  }

  /** A file that begins with a key reaches the null section map. */
  lemma KeyBeforeAnySectionIsUndefined()
    ensures LoadLines(map[], ["k=v"]).NullSection?
  {
    ReadsBackExactlyWhenWritable("k", "v");
    assert "k" + "=" + "v" == "k=v";
    LoadMeaning(map[], ["k=v"], 1);
    assert HomelessKey(["k=v"], 0);
  }
}
