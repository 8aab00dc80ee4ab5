/** One line of an INI file, as myyxs/version2/ConfigReader.cpp reads it: trimming, sections, assignments. */
module IniLines {
  import opened Options
  import opened Text

  /** isspace in the "C" locale. */
  predicate IsSpace(c: char) {
    c == ' ' || ('\t' <= c <= '\r')
  }

  predicate AllSpace(s: string) {
    forall i :: 0 <= i < |s| ==> IsSpace(s[i])
  }

  predicate Trimmed(s: string) {
    s == "" || (!IsSpace(s[0]) && !IsSpace(s[|s| - 1]))
  }

  function TrimLeft(s: string): string {
    if s != "" && IsSpace(s[0]) then TrimLeft(s[1..]) else s
  }

  function TrimRight(s: string): string {
    if s != "" && IsSpace(s[|s| - 1]) then TrimRight(s[..|s| - 1]) else s
  }

  function Trim(s: string): string {
    TrimLeft(TrimRight(s))
  }

  method TrimLeftLoop(s: string) returns (r: string)
    ensures r == TrimLeft(s)
  {
    var firstNotEmpty := 0;
    assert s[0..] == s;
    while firstNotEmpty < |s| && IsSpace(s[firstNotEmpty])
      invariant 0 <= firstNotEmpty <= |s| && TrimLeft(s[firstNotEmpty..]) == TrimLeft(s)
    {
      assert s[firstNotEmpty..][1..] == s[firstNotEmpty + 1..];
      firstNotEmpty := firstNotEmpty + 1;
    }
    r := s[firstNotEmpty..];
  }

  method TrimRightLoop(s: string) returns (r: string)
    ensures r == TrimRight(s)
  {
    var lastNotEmpty := |s|;
    assert s[..|s|] == s;
    while lastNotEmpty > 0 && IsSpace(s[lastNotEmpty - 1])
      invariant 0 <= lastNotEmpty <= |s| && TrimRight(s[..lastNotEmpty]) == TrimRight(s)
    {
      assert s[..lastNotEmpty][..lastNotEmpty - 1] == s[..lastNotEmpty - 1];
      lastNotEmpty := lastNotEmpty - 1;
    }
    r := s[..lastNotEmpty];
  }

  method TrimBoth(s: string) returns (r: string)
    ensures r == Trim(s)
  {
    r := TrimRightLoop(s);
    r := TrimLeftLoop(r);
  }

  lemma {:induction false} TrimLeftDrops(s: string) returns (a: string)
    ensures s == a + TrimLeft(s) && AllSpace(a) && (TrimLeft(s) == "" || !IsSpace(TrimLeft(s)[0]))
    decreases |s|
  {
    a := "";
    if s != "" && IsSpace(s[0]) {
      a := TrimLeftDrops(s[1..]);
      a := [s[0]] + a;
      assert s == [s[0]] + s[1..];
    }
  }

  lemma {:induction false} TrimRightDrops(s: string) returns (b: string)
    ensures s == TrimRight(s) + b && AllSpace(b) && (TrimRight(s) == "" || !IsSpace(TrimRight(s)[|TrimRight(s)| - 1]))
    decreases |s|
  {
    b := "";
    if s != "" && IsSpace(s[|s| - 1]) {
      b := TrimRightDrops(s[..|s| - 1]);
      b := b + [s[|s| - 1]];
      assert s == s[..|s| - 1] + [s[|s| - 1]];
    }
  }

  lemma SpacesAreSix()
    ensures forall c :: IsSpace(c) <==> c in " \t\n\U{0B}\U{0C}\r"
  {
    var six := " \t\n\U{0B}\U{0C}\r";
    assert six[0] == ' ' && six[1] == '\t' && six[2] == '\n';
    assert six[3] == '\U{0B}' && six[4] == '\U{0C}' && six[5] == '\r';
    forall c ensures IsSpace(c) <==> c in six {
      if IsSpace(c) {
        assert c as int in {32, 9, 10, 11, 12, 13};
      }
    }
  }

  lemma TrimParts(s: string) returns (a: string, b: string)
    ensures s == a + Trim(s) + b && AllSpace(a) && AllSpace(b) && Trimmed(Trim(s))
  {
    b := TrimRightDrops(s);
    a := TrimLeftDrops(TrimRight(s));
    if Trim(s) != "" {
      assert TrimRight(s)[|TrimRight(s)| - 1] == Trim(s)[|Trim(s)| - 1];
    }
  }

  /** trim cuts off white space only, and all of it. */
  lemma TrimIsExact(s: string) returns (a: string, b: string)
    ensures s == a + Trim(s) + b && AllSpace(a) && AllSpace(b) && Trimmed(Trim(s))
    ensures forall c <- a + b :: c in " \t\n\U{0B}\U{0C}\r"
    ensures forall c <- " \t\n\U{0B}\U{0C}\r" ::
              Trim(s) == "" || (Trim(s)[0] != c && Trim(s)[|Trim(s)| - 1] != c)
  {
    a, b := TrimParts(s);
    SpacesAreSix();
    hide TrimLeft, TrimRight, IsSpace;
    forall c | c in a + b ensures IsSpace(c) {
      assert c in a || c in b;
    }
  }

  lemma TrimOfTrimmed(s: string)
    requires Trimmed(s)
    ensures Trim(s) == s
  {
  }

  lemma {:induction false} TrimRightOf(s: string, b: string)
    requires AllSpace(b) && (s == "" || !IsSpace(s[|s| - 1]))
    ensures TrimRight(s + b) == s
    decreases |b|
  {
    if b == "" {
      assert s + b == s;
    } else {
      TrimRightOf(s, b[..|b| - 1]);
      assert (s + b)[..|s + b| - 1] == s + b[..|b| - 1];
    }
  }

  lemma {:induction false} TrimLeftOf(a: string, s: string)
    requires AllSpace(a) && (s == "" || !IsSpace(s[0]))
    ensures TrimLeft(a + s) == s
    decreases |a|
  {
    if a == "" {
      assert a + s == s;
    } else {
      TrimLeftOf(a[1..], s);
      assert (a + s)[1..] == a[1..] + s;
    }
  }

  /** There is one way to cut white space off both ends, and trim finds it. */
  lemma TrimOfPadded(a: string, t: string, b: string)
    requires AllSpace(a) && AllSpace(b) && Trimmed(t)
    ensures Trim(a + t + b) == t
  {
    hide TrimLeft, TrimRight;
    if t == "" {
      assert a + t + b == "" + (a + b);
      TrimRightOf("", a + b);
      assert "" + "" == "";
      TrimLeftOf("", "");
    } else {
      assert (a + t)[|a + t| - 1] == t[|t| - 1];
      TrimRightOf(a + t, b);
      TrimLeftOf(a, t);
    }
  }

  // Lines.

  datatype Line = SectionLine(name: string) | Assignment(key: string, value: string) | Ignored

  function SectionName(line: string): Option<string> {
    var section := Trim(line);
    if |section| <= 2 || section[0] != '[' || section[|section| - 1] != ']' then None
    else Some(Trim(section[1..|section| - 1]))
  }

  /** What load does with a line, in the order of its tests. */
  function Parse(line: string): Line {
    if SectionName(line).Some? then SectionLine(SectionName(line).value)
    else
      var equPos := Find(line, '=', 0);
      if equPos == NPOS then Ignored
      else
        var key := Trim(line[..equPos]);
        if key == "" || key[0] == '#' || key[0] == ';' then Ignored
        else Assignment(key, Trim(line[equPos + 1..]))
  }

  method IsSection(line: string) returns (found: bool, section: string)
    ensures found <==> SectionName(line).Some?
    ensures found ==> section == SectionName(line).value
  {
    section := TrimBoth(line);
    if section == "" || |section| <= 2 {
      return false, section;
    }
    if section[0] != '[' || section[|section| - 1] != ']' {
      return false, section;
    }
    section := section[1..|section| - 1];
    section := TrimBoth(section);
    return true, section;
  }

  // What the lines of a file are, without searching them.

  /** A section line: a name in brackets, with white space anywhere around, and not just "[]". */
  ghost predicate IsSectionLine(line: string, name: string) {
    exists a, b, c, d ::
      && AllSpace(a) && AllSpace(b) && AllSpace(c) && AllSpace(d) && Trimmed(name) && b + name + c != ""
      && line == Bracketed(a, b, name, c, d)
  }

  function Bracketed(a: string, b: string, name: string, c: string, d: string): string {
    a + ("[" + (b + name + c) + "]") + d
  }

  function Assigned(a: string, key: string, b: string, c: string, value: string, d: string): string {
    (a + key + b) + "=" + (c + value + d)
  }

  lemma BracketedReads(a: string, b: string, name: string, c: string, d: string)
    requires AllSpace(a) && AllSpace(b) && AllSpace(c) && AllSpace(d) && Trimmed(name) && b + name + c != ""
    ensures SectionName(Bracketed(a, b, name, c, d)) == Some(name)
  {
    var inner := b + name + c;
    var section := "[" + inner + "]";
    hide TrimLeft, TrimRight;
    TrimOfPadded(a, section, d);
    TrimOfPadded(b, name, c);
    assert section[1..|section| - 1] == inner;
  }

  lemma Brackets(section: string)
    requires |section| > 2 && section[0] == '[' && section[|section| - 1] == ']'
    ensures section == "[" + section[1..|section| - 1] + "]"
  {
  }

  lemma SectionIsSpelled(line: string)
    requires SectionName(line).Some?
    ensures IsSectionLine(line, SectionName(line).value)
  {
    hide TrimLeft, TrimRight;
    var section := Trim(line);
    var inner, name := section[1..|section| - 1], SectionName(line).value;
    var a, d := TrimParts(line);
    var b, c := TrimParts(inner);
    Brackets(section);
    hide SectionName, AllSpace;
    assert b + name + c == inner;
    assert line == Bracketed(a, b, name, c, d);
  }

  /** isSection finds exactly these. */
  lemma SectionIsExact(line: string, name: string)
    ensures Parse(line) == SectionLine(name) <==> IsSectionLine(line, name)
  {
    if SectionName(line) == Some(name) {
      SectionIsSpelled(line);
    } else if IsSectionLine(line, name) {
      var a, b, c, d :|
        && AllSpace(a) && AllSpace(b) && AllSpace(c) && AllSpace(d) && Trimmed(name) && b + name + c != ""
        && line == Bracketed(a, b, name, c, d);
      BracketedReads(a, b, name, c, d);
      assert false;
    }
    hide SectionName, IsSectionLine;
  }

  /**
   An assignment: a key without '=' that is not empty and no comment, '=', and a value, with white
   space anywhere around both.
   */
  ghost predicate IsAssignmentLine(line: string, key: string, value: string) {
    && key != "" && Trimmed(key) && Trimmed(value) && '=' !in key && key[0] != '#' && key[0] != ';'
    && exists a, b, c, d ::
         AllSpace(a) && AllSpace(b) && AllSpace(c) && AllSpace(d) && line == Assigned(a, key, b, c, value, d)
  }

  lemma CutAtEquals(left: string, right: string)
    requires '=' !in left
    ensures var line := left + "=" + right;
            Find(line, '=', 0) == |left| && line[..|left|] == left && line[|left| + 1..] == right
  {
    var line := left + "=" + right;
    assert line[|left|] == '=' && forall i :: 0 <= i < |left| ==> line[i] == left[i];
  }

  lemma AssignedReads(a: string, key: string, b: string, c: string, value: string, d: string)
    requires AllSpace(a) && AllSpace(b) && AllSpace(c) && AllSpace(d)
    requires key != "" && Trimmed(key) && Trimmed(value) && '=' !in key && key[0] != '#' && key[0] != ';'
    requires SectionName(Assigned(a, key, b, c, value, d)) == None
    ensures Parse(Assigned(a, key, b, c, value, d)) == Assignment(key, value)
  {
    hide TrimLeft, TrimRight, SectionName;
    assert '=' !in a + key + b;
    CutAtEquals(a + key + b, c + value + d);
    TrimOfPadded(a, key, b);
    TrimOfPadded(c, value, d);
  }

  lemma NoSectionIsExact(line: string)
    ensures SectionName(line) == None <==> forall name :: !IsSectionLine(line, name)
  {
    hide IsSectionLine;
    forall name ensures Parse(line) == SectionLine(name) <==> IsSectionLine(line, name) {
      SectionIsExact(line, name);
    }
    if SectionName(line).Some? {
      assert IsSectionLine(line, SectionName(line).value);
    }
    hide SectionName;
  }

  lemma EqualsCuts(line: string)
    requires Find(line, '=', 0) != NPOS
    ensures var k := Find(line, '=', 0);
            '=' !in line[..k] && line == line[..k] + "=" + line[k + 1..]
  {
  }

  lemma AssignmentIsSpelled(line: string)
    requires Parse(line).Assignment?
    ensures IsAssignmentLine(line, Parse(line).key, Parse(line).value)
  {
    hide SectionName, TrimLeft, TrimRight;
    var k := Find(line, '=', 0);
    EqualsCuts(line);
    var a, b := TrimParts(line[..k]);
    var c, d := TrimParts(line[k + 1..]);
    var key, value := Trim(line[..k]), Trim(line[k + 1..]);
    hide Find, AllSpace;
    assert forall x <- key :: x in line[..k];
    assert line == Assigned(a, key, b, c, value, d);
  }

  /** load takes exactly these for assignments, unless they are section lines too. */
  lemma AssignmentIsExact(line: string, key: string, value: string)
    ensures Parse(line) == Assignment(key, value) <==>
            IsAssignmentLine(line, key, value) && forall name :: !IsSectionLine(line, name)
  {
    NoSectionIsExact(line);
    if Parse(line) == Assignment(key, value) {
      AssignmentIsSpelled(line);
      assert SectionName(line) == None;
    } else if IsAssignmentLine(line, key, value) && SectionName(line) == None {
      hide SectionName, IsSectionLine, TrimLeft, TrimRight;
      var a, b, c, d :|
        AllSpace(a) && AllSpace(b) && AllSpace(c) && AllSpace(d) && line == Assigned(a, key, b, c, value, d);
      AssignedReads(a, key, b, c, value, d);
      assert false;
    }
  }

  // Lines as they are written.

  ghost predicate WritableName(name: string) {
    name != "" && Trimmed(name) && '\n' !in name
  }

  /** A key and value that read back: the key is no comment, and the line does not look like a section. */
  ghost predicate WritableEntry(key: string, value: string) {
    && key != "" && Trimmed(key) && '\n' !in key && '=' !in key && key[0] != '#' && key[0] != ';'
    && Trimmed(value) && '\n' !in value
    && !(key[0] == '[' && value != "" && value[|value| - 1] == ']')
  }

  /** A section line however padded. */
  lemma PaddedSectionReads(a: string, b: string, name: string, c: string, d: string)
    requires WritableName(name) && AllSpace(a) && AllSpace(b) && AllSpace(c) && AllSpace(d)
    ensures Parse(Bracketed(a, b, name, c, d)) == SectionLine(name)
  {
    assert b + name + c != "";
    BracketedReads(a, b, name, c, d);
    hide SectionName;
  }

  /** The ends of a padded line with the white space cut off. */
  lemma TrimOfAssigned(a: string, key: string, b: string, c: string, value: string, d: string)
    requires AllSpace(a) && AllSpace(b) && AllSpace(c) && AllSpace(d) && key != "" && Trimmed(key) && Trimmed(value)
    ensures var t := Trim(Assigned(a, key, b, c, value, d));
            t != "" && t[0] == key[0] && t[|t| - 1] == if value == "" then '=' else value[|value| - 1]
  {
    hide TrimLeft, TrimRight;
    if value == "" {
      var t := key + b + "=";
      assert Assigned(a, key, b, c, value, d) == a + t + (c + d);
      TrimOfPadded(a, t, c + d);
    } else {
      var t := key + b + "=" + c + value;
      assert t[|t| - 1] == value[|value| - 1];
      assert Assigned(a, key, b, c, value, d) == a + t + d;
      TrimOfPadded(a, t, d);
    }
  }

  /** An entry however padded around key and value. */
  lemma PaddedEntryReads(a: string, key: string, b: string, c: string, value: string, d: string)
    requires WritableEntry(key, value) && AllSpace(a) && AllSpace(b) && AllSpace(c) && AllSpace(d)
    ensures Parse(Assigned(a, key, b, c, value, d)) == Assignment(key, value)
  {
    TrimOfAssigned(a, key, b, c, value, d);
    assert SectionName(Assigned(a, key, b, c, value, d)) == None by {
      hide Assigned, TrimLeft, TrimRight;
    }
    hide SectionName;
    AssignedReads(a, key, b, c, value, d);
  }

  lemma LooksLikeASection(key: string, value: string)
    requires key != "" && Trimmed(key) && Trimmed(value) && key[0] == '[' && value != "" && value[|value| - 1] == ']'
    ensures exists name :: IsSectionLine(key + "=" + value, name)
  {
    var line := key + "=" + value;
    assert line[0] == '[' && line[|line| - 1] == ']';
    TrimOfTrimmed(line);
    SectionIsExact(line, SectionName(line).value);
  }

  /** Unpadded, exactly these keys and values read back: other lines are comments, sections, or cut earlier. */
  lemma ReadsBackExactlyWhenWritable(key: string, value: string)
    requires key != "" && Trimmed(key) && Trimmed(value) && '\n' !in key && '\n' !in value
    ensures Parse(key + "=" + value) == Assignment(key, value) <==> WritableEntry(key, value)
  {
    var line := key + "=" + value;
    PlainEntry(key, value);
    if WritableEntry(key, value) {
      PaddedEntryReads("", key, "", "", value, "");
    } else if Parse(line) == Assignment(key, value) {
      AssignmentIsExact(line, key, value);
      hide Parse;
      LooksLikeASection(key, value);
      assert false;
    }
  }

  lemma PlainEntry(key: string, value: string)
    ensures Assigned("", key, "", "", value, "") == key + "=" + value
    ensures Bracketed("", "", key, "", "") == "[" + key + "]"
  {
    assert "" + key + "" == key && "" + value + "" == value;
    assert "" + ("[" + key + "]") + "" == "[" + key + "]";
  }
}
