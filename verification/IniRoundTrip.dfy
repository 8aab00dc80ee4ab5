/** Writing a configuration as text and loading it back. */
module IniRoundTrip {
  import opened Options
  import opened Text
  import opened IniLines
  import opened IniLoader

  /** A line of a written configuration. */
  datatype Item = Header(name: string) | Pair(key: string, value: string)

  ghost predicate Writable(item: Item) {
    match item
    case Header(name) => WritableName(name)
    case Pair(key, value) => WritableEntry(key, value)
  }

  /** The item with white space a, b, c, d around its parts. */
  function Spelled(item: Item, a: string, b: string, c: string, d: string): string {
    match item
    case Header(name) => Bracketed(a, b, name, c, d)
    case Pair(key, value) => Assigned(a, key, b, c, value, d)
  }

  /** A line that writes the item, with any white space around its parts. */
  ghost predicate Writes(line: string, item: Item) {
    '\n' !in line &&
    exists a, b, c, d ::
      AllSpace(a) && AllSpace(b) && AllSpace(c) && AllSpace(d) && line == Spelled(item, a, b, c, d)
  }

  ghost predicate Written(lines: seq<string>, items: seq<Item>) {
    |lines| == |items| && forall i :: 0 <= i < |items| ==> Writes(lines[i], items[i])
  }

  /** The plain text of an item is one way to write it. */
  lemma PlainTextWrites(item: Item)
    requires Writable(item)
    ensures Writes(if item.Header? then "[" + item.name + "]" else item.key + "=" + item.value, item)
  {
    var key := if item.Header? then item.name else item.key;
    PlainEntry(key, "");
    assert AllSpace("");
    if item.Header? {
      assert Spelled(item, "", "", "", "") == "[" + key + "]";
    } else {
      PlainEntry(item.key, item.value);
      assert Spelled(item, "", "", "", "") == key + "=" + item.value;
    }
  }

  function ItemStep(p: Progress, item: Item): Progress
    requires p.Running? && (item.Pair? ==> p.current.Some? && p.current.value in p.sections)
  {
    match item
    case Header(name) => Running(if name in p.sections then p.sections else p.sections[name := map[]], Some(name))
    case Pair(key, value) =>
      p.(sections := p.sections[p.current.value := p.sections[p.current.value][key := value]])
  }

  lemma ItemReadsBack(p: Progress, item: Item, line: string)
    requires Writable(item) && Writes(line, item)
    requires p.Running? && (item.Pair? ==> p.current.Some? && p.current.value in p.sections)
    ensures Step(p, line) == ItemStep(p, item)
  {
    hide Parse, Bracketed, Assigned;
    var a, b, c, d :|
      AllSpace(a) && AllSpace(b) && AllSpace(c) && AllSpace(d) && line == Spelled(item, a, b, c, d);
    if item.Header? {
      PaddedSectionReads(a, b, item.name, c, d);
    } else {
      PaddedEntryReads(a, item.key, b, c, item.value, d);
    }
  }

  // Listing a map.

  /** The order lists the keys of the map; a key may be listed again. */
  ghost predicate Lists<T>(order: seq<string>, m: map<string, T>) {
    forall x :: x in order <==> x in m
  }

  /** One way to write a configuration down: its sections in an order, and the keys of each in an order. */
  datatype Listing = Listing(names: seq<string>, keys: map<string, seq<string>>)

  ghost predicate IsListing(l: Listing, sections: Sections) {
    && Lists(l.names, sections)
    && forall name :: name in sections ==> name in l.keys && Lists(l.keys[name], sections[name])
  }

  ghost function Pairs(entries: map<string, string>, order: seq<string>): seq<Item>
    requires forall key :: key in order ==> key in entries
  {
    if order == [] then []
    else
      var n := |order| - 1;
      Pairs(entries, order[..n]) + [Pair(order[n], entries[order[n]])]
  }

  ghost predicate CanList(sections: Sections, name: string, keys: map<string, seq<string>>) {
    name in sections && name in keys && forall key :: key in keys[name] ==> key in sections[name]
  }

  /** The sections `names` with their pairs. */
  ghost function Items(sections: Sections, names: seq<string>, keys: map<string, seq<string>>): seq<Item>
    requires forall name :: name in names ==> CanList(sections, name, keys)
  {
    if names == [] then []
    else
      var n := |names| - 1;
      var name := names[n];
      assert names[n] in names && CanList(sections, name, keys);
      Items(sections, names[..n], keys) + [Header(name)] + Pairs(sections[name], keys[name])
  }

  ghost predicate WritableSections(sections: Sections) {
    forall name :: name in sections ==>
      WritableName(name) && forall key :: key in sections[name] ==> WritableEntry(key, sections[name][key])
  }

  /** The items, however written, take progress p to progress q. */
  ghost predicate Leads(p: Progress, items: seq<Item>, q: Progress) {
    forall lines :: Written(lines, items) ==> ReadLines(p, lines, |lines|) == q
  }

  lemma WrittenPrefix(lines: seq<string>, items: seq<Item>, item: Item)
    requires Written(lines, items + [item])
    ensures var n := |items|; |lines| == n + 1 && Written(lines[..n], items) && Writes(lines[n], item)
  {
    hide Writes;
    assert forall i :: 0 <= i < |items| ==> (items + [item])[i] == items[i];
  }

  lemma LeadsSnoc(p: Progress, items: seq<Item>, q: Progress, item: Item)
    requires Leads(p, items, q) && Writable(item)
    requires q.Running? && (item.Pair? ==> q.current.Some? && q.current.value in q.sections)
    ensures Leads(p, items + [item], ItemStep(q, item))
  {
    forall lines | Written(lines, items + [item]) ensures ReadLines(p, lines, |lines|) == ItemStep(q, item) {
      WrittenPrefix(lines, items, item);
      hide Written, Writes, Step, ItemStep, Writable;
      var n := |items|;
      ItemReadsBack(q, item, lines[n]);
      PrefixReads(p, lines[..n], lines, n);
    }
  }

  lemma LeadsNowhere(p: Progress)
    ensures Leads(p, [], p)
  {
  }

  lemma {:induction false} PrefixReads(p: Progress, a: seq<string>, b: seq<string>, n: nat)
    requires n <= |a| <= |b| && forall i :: 0 <= i < n ==> a[i] == b[i]
    ensures ReadLines(p, a, n) == ReadLines(p, b, n)
  {
    if n > 0 {
      PrefixReads(p, a, b, n - 1);
    }
  }

  /** The part of a map whose keys are among those listed. */
  ghost function Among<T>(m: map<string, T>, order: seq<string>): map<string, T> {
    map x | x in m && x in order :: m[x]
  }

  lemma AmongAll<T>(m: map<string, T>, order: seq<string>)
    requires Lists(order, m)
    ensures Among(m, order) == m
  {
  }

  lemma AmongOneMore<T>(m: map<string, T>, order: seq<string>)
    requires order != [] && order[|order| - 1] in m
    ensures var n := |order| - 1; Among(m, order) == Among(m, order[..n])[order[n] := m[order[n]]]
  {
    var n := |order| - 1;
    assert order == order[..n] + [order[n]];
  }

  /** q with entries added to its current section. */
  ghost function With(q: Progress, entries: map<string, string>): Progress
    requires q.Running? && q.current.Some? && q.current.value in q.sections
  {
    q.(sections := q.sections[q.current.value := q.sections[q.current.value] + entries])
  }

  /** Adding one more entry. */
  lemma AddEntry(q: Progress, some: map<string, string>, key: string, value: string)
    requires q.Running? && q.current.Some? && q.current.value in q.sections
    ensures ItemStep(With(q, some), Pair(key, value)) == With(q, some[key := value])
  {
    var m := q.sections[q.current.value];
    assert (m + some)[key := value] == m + some[key := value];
    assert With(q, some[key := value]).sections ==
           q.sections[q.current.value := m + some][q.current.value := m + some[key := value]];
  }

  lemma AddNothing(q: Progress)
    requires q.Running? && q.current.Some? && q.current.value in q.sections
    ensures With(q, map[]) == q
  {
    var m := q.sections[q.current.value];
    assert m + map[] == m;
    assert q.sections[q.current.value := m] == q.sections;
  }

  /** A header and all its pairs add the section, also if they were there before. */
  lemma AddSection(some: Sections, name: string, entries: map<string, string>, before: Option<string>)
    requires name in some ==> some[name] == entries
    ensures var q := ItemStep(Running(some, before), Header(name));
            && q.Running? && q.current == Some(name) && name in q.sections
            && With(q, entries) == Running(some[name := entries], Some(name))
  {
    assert map[] + entries == entries && entries + entries == entries;
    assert some[name := map[]][name := entries] == some[name := entries];
  }

  lemma {:induction false} PairsLead(
    p: Progress, items: seq<Item>, q: Progress, entries: map<string, string>, order: seq<string>)
    requires Leads(p, items, q) && q.Running? && q.current.Some? && q.current.value in q.sections
    requires forall key :: key in order ==> key in entries && WritableEntry(key, entries[key])
    ensures Leads(p, items + Pairs(entries, order), With(q, Among(entries, order)))
    decreases |order|
  {
    if order == [] {
      assert items + Pairs(entries, order) == items && Among(entries, order) == map[];
      AddNothing(q);
    } else {
      var n := |order| - 1;
      var key, fewer := order[n], order[..n];
      PairsLead(p, items, q, entries, fewer);
      AmongOneMore(entries, order);
      hide Leads, ItemStep, Among;
      LeadsSnoc(p, items + Pairs(entries, fewer), With(q, Among(entries, fewer)), Pair(key, entries[key]));
      Associate(items, Pairs(entries, fewer), [Pair(key, entries[key])]);
      hide Pairs, With;
      AddEntry(q, Among(entries, fewer), key, entries[key]);
    }
  }

  lemma {:induction false} ItemsLead(sections: Sections, names: seq<string>, keys: map<string, seq<string>>)
    returns (last: Option<string>)
    requires WritableSections(sections)
    requires forall name :: name in names ==> CanList(sections, name, keys) && Lists(keys[name], sections[name])
    ensures Leads(Running(map[], None), Items(sections, names, keys), Running(Among(sections, names), last))
    decreases |names|
  {
    last := None;
    if names == [] {
      assert Among(sections, names) == map[];
      LeadsNowhere(Running(map[], None));
    } else {
      var n := |names| - 1;
      var name, fewer := names[n], names[..n];
      assert name in names;
      var before := ItemsLead(sections, fewer, keys);
      AmongOneMore(sections, names);
      AmongAll(sections[name], keys[name]);
      var start, some := Running(map[], None), Among(sections, fewer);
      AddSection(some, name, sections[name], before);
      hide Leads, Pairs, ItemStep, With, Among;
      LeadsSnoc(start, Items(sections, fewer, keys), Running(some, before), Header(name));
      PairsLead(start, Items(sections, fewer, keys) + [Header(name)], ItemStep(Running(some, before), Header(name)),
                sections[name], keys[name]);
      last := Some(name);
    }
  }

  /**
   Every configuration that can be written can be read back: whatever the order in which its sections
   and keys are listed, and whatever white space stands around names, keys and values, loading the text
   into an empty reader leaves exactly that map.
   */
  lemma LoadAfterRender(sections: Sections, l: Listing, lines: seq<string>) returns (last: Option<string>)
    requires WritableSections(sections) && IsListing(l, sections)
    requires Written(lines, Items(sections, l.names, l.keys))
    ensures LoadLines(map[], Split(Join(lines, "\n"), '\n')) == Running(sections, last)
  {
    last := ItemsLead(sections, l.names, l.keys);
    AmongAll(sections, l.names);
    hide Items, Step, Split, Among;
    if lines == [] {
      SplitOfWhole("", '\n');
      EmptyLine(Running(map[], None));
    } else {
      SplitAfterJoin(lines, '\n');
    }
  }

  lemma EmptyLine(p: Progress)
    ensures ReadLines(p, [""], 1) == p
  {
    assert Step(p, "") == p;
    assert ReadLines(p, [""], 1) == Step(ReadLines(p, [""], 0), "");
  }

  /** So getString on a reader that has loaded the text returns the values that were written, else the default. */
  method ReadBack(
    sections: Sections, l: Listing, lines: seq<string>, section: string, key: string, defaultValue: string)
    returns (value: string)
    requires WritableSections(sections) && IsListing(l, sections)
    requires Written(lines, Items(sections, l.names, l.keys))
    ensures value == if section in sections && key in sections[section] then sections[section][key] else defaultValue
  {
    ghost var last := LoadAfterRender(sections, l, lines);
    hide Items, Written, IsListing, LoadLines, Split;
    var reader := new ConfigReader();
    var outcome;
    ghost var end;
    outcome, end := reader.Load(Some(Join(lines, "\n")));
    assert reader.sections == sections;
    value := reader.GetString(section, key, defaultValue);
  }
}
