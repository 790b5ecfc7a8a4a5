/** The log/slog bridge: how attributes and groups of derived handlers flatten into log fields. */
module SlogFields {

  /** A resolved attribute value: rendered text, or a group of attributes. */
  datatype Value = Leaf(text: string) | Group(members: seq<Attr>)

  datatype Attr = Attr(key: string, value: Value)

  type Fields = map<string, string>

  // ------------------------------------------------------------ flattening

  function Added(fields: Fields, prefix: string, attr: Attr): Fields
    decreases attr
  {
    match attr.value
    case Leaf(text) => if attr.key == "" then fields else fields[prefix + attr.key := text]
    case Group(members) => AddedAll(fields, if attr.key == "" then prefix else prefix + attr.key + ".", members)
  }

  function AddedAll(fields: Fields, prefix: string, attrs: seq<Attr>): Fields
    decreases attrs
  {
    if attrs == [] then fields else AddedAll(Added(fields, prefix, attrs[0]), prefix, attrs[1..])
  }

  lemma {:induction false} AddedAllAppend(fields: Fields, prefix: string, a: seq<Attr>, b: seq<Attr>)
    ensures AddedAll(fields, prefix, a + b) == AddedAll(AddedAll(fields, prefix, a), prefix, b)
    decreases |a|
  {
    if a == [] {
      assert a + b == b;
    } else {
      assert (a + b)[1..] == a[1..] + b;
      AddedAllAppend(Added(fields, prefix, a[0]), prefix, a[1..], b);
    }
  }

  /** strings.Join. */
  function Join(parts: seq<string>, separator: string): string {
    if parts == [] then ""
    else if |parts| == 1 then parts[0]
    else parts[0] + separator + Join(parts[1..], separator)
  }

  function Prefix(groups: seq<string>): string {
    if groups == [] then "" else Join(groups, ".") + "."
  }

  lemma {:induction false} PrefixGrows(groups: seq<string>, name: string)
    ensures Prefix(groups + [name]) == Prefix(groups) + name + "."
  {
    if groups != [] {
      JoinGrows(groups, name);
    }
  }

  lemma {:induction false} JoinGrows(groups: seq<string>, name: string)
    requires groups != []
    ensures Join(groups + [name], ".") == Join(groups, ".") + "." + name
  {
    if |groups| > 1 {
      assert (groups + [name])[1..] == groups[1..] + [name];
      JoinGrows(groups[1..], name);
      assert groups[0] + "." + (Join(groups[1..], ".") + "." + name)
          == groups[0] + "." + Join(groups[1..], ".") + "." + name;
    } else {
      assert (groups + [name])[1..] == [name];
    }
  }

  // ------------------------------------------------------------ chains of derived handlers

  datatype Step = With(attrs: seq<Attr>) | Open(name: string)

  /** What a handler carries: flattened fields and the groups open for later attributes. */
  datatype State = State(fields: Fields, groups: seq<string>)

  function Derived(h: State, step: Step): State {
    match step
    case With(attrs) => h.(fields := AddedAll(h.fields, Prefix(h.groups), attrs))
    case Open(name) => if name == "" then h else h.(groups := h.groups + [name])
  }

  function DerivedAll(h: State, chain: seq<Step>): State
    decreases |chain|
  {
    if chain == [] then h else DerivedAll(Derived(h, chain[0]), chain[1..])
  }

  /** The fields a handler logs for a record with these attributes. */
  function Logged(h: State, attrs: seq<Attr>): Fields {
    AddedAll(h.fields, Prefix(h.groups), attrs)
  }

  /** The attributes that the base handler would need: every opened group nests all that follows it. */
  function Nested(chain: seq<Step>, attrs: seq<Attr>): seq<Attr> {
    if chain == [] then attrs
    else
      var inner := Nested(chain[1..], attrs);
      match chain[0]
      case With(more) => more + inner
      case Open(name) => if name == "" then inner else [Attr(name, Group(inner))]
  }

  /** A record logged through any chain of WithAttrs and WithGroup carries the fields of one nested record. */
  lemma {:induction false} ChainsFlatten(h: State, chain: seq<Step>, attrs: seq<Attr>)
    ensures Logged(DerivedAll(h, chain), attrs) == Logged(h, Nested(chain, attrs))
    decreases |chain|
  {
    if chain != [] {
      var inner := Nested(chain[1..], attrs);
      ChainsFlatten(Derived(h, chain[0]), chain[1..], attrs);
      match chain[0]
      case With(more) => AddedAllAppend(h.fields, Prefix(h.groups), more, inner);
      case Open(name) =>
        if name != "" {
          PrefixGrows(h.groups, name);
          assert AddedAll(h.fields, Prefix(h.groups), [Attr(name, Group(inner))])
              == Added(h.fields, Prefix(h.groups), Attr(name, Group(inner)));
        }
    }
  }

  // ------------------------------------------------------------ which fields are logged

  /** A leaf of an attribute tree: the named groups it stands in and then its own key, and its text. */
  datatype Field = Field(path: seq<string>, text: string)

  function Leaves(groups: seq<string>, attr: Attr): seq<Field>
    decreases attr
  {
    match attr.value
    case Leaf(text) => if attr.key == "" then [] else [Field(groups + [attr.key], text)]
    case Group(members) => AllLeaves(if attr.key == "" then groups else groups + [attr.key], members)
  }

  function AllLeaves(groups: seq<string>, attrs: seq<Attr>): seq<Field>
    decreases attrs
  {
    if attrs == [] then [] else Leaves(groups, attrs[0]) + AllLeaves(groups, attrs[1..])
  }

  /** The leaves of a record and of the attributes added along a chain, each in the groups open at that point. */
  function ChainLeaves(groups: seq<string>, chain: seq<Step>, attrs: seq<Attr>): seq<Field>
    decreases |chain|
  {
    if chain == [] then AllLeaves(groups, attrs)
    else
      match chain[0]
      case With(more) => AllLeaves(groups, more) + ChainLeaves(groups, chain[1..], attrs)
      case Open(name) => ChainLeaves(if name == "" then groups else groups + [name], chain[1..], attrs)
  }

  /** The path with dots between its names. */
  function Dotted(path: seq<string>): string {
    if path == [] then ""
    else if |path| == 1 then path[0]
    else Dotted(path[..|path| - 1]) + "." + path[|path| - 1]
  }

  /** No later leaf has the same dotted path. */
  predicate Last(leaves: seq<Field>, i: nat)
    requires i < |leaves|
  {
    forall j :: i < j < |leaves| ==> Dotted(leaves[j].path) != Dotted(leaves[i].path)
  }

  /** The text of every leaf that is the last with its path is held under that path. */
  predicate HoldsLeaves(m: Fields, leaves: seq<Field>) {
    forall i :: 0 <= i < |leaves| && Last(leaves, i) ==>
      Dotted(leaves[i].path) in m && m[Dotted(leaves[i].path)] == leaves[i].text
  }

  predicate Named(leaves: seq<Field>, key: string) {
    exists i :: 0 <= i < |leaves| && Dotted(leaves[i].path) == key
  }

  /** Under keys that are no leaf's path everything is as carried. */
  ghost predicate KeepsOthers(m: Fields, carried: Fields, leaves: seq<Field>) {
    forall key :: !Named(leaves, key) ==> (key in m <==> key in carried) && (key in m ==> m[key] == carried[key])
  }

  function Written(carried: Fields, leaves: seq<Field>): Fields {
    if leaves == [] then carried
    else
      var last := leaves[|leaves| - 1];
      Written(carried, leaves[..|leaves| - 1])[Dotted(last.path) := last.text]
  }

  lemma OneMoreLeaf(m: Fields, before: seq<Field>, leaf: Field)
    requires HoldsLeaves(m, before)
    ensures HoldsLeaves(m[Dotted(leaf.path) := leaf.text], before + [leaf])
  {
    hide Dotted;
    var leaves := before + [leaf];
    forall i | 0 <= i < |before| && Last(leaves, i)
      ensures Dotted(leaves[i].path) != Dotted(leaf.path) && Last(before, i)
    {
      assert leaves[|before|] == leaf;
      assert forall j :: i < j < |before| ==> leaves[j] == before[j];
    }
  }

  lemma OneMoreName(m: Fields, carried: Fields, before: seq<Field>, leaf: Field)
    requires KeepsOthers(m, carried, before)
    ensures KeepsOthers(m[Dotted(leaf.path) := leaf.text], carried, before + [leaf])
  {
    hide Dotted;
    var leaves := before + [leaf];
    forall key | !Named(leaves, key) ensures !Named(before, key) && key != Dotted(leaf.path) {
      assert leaves[|before|] == leaf;
      assert forall i :: 0 <= i < |before| ==> leaves[i] == before[i];
    }
  }

  lemma {:induction false} WrittenHolds(carried: Fields, leaves: seq<Field>)
    ensures HoldsLeaves(Written(carried, leaves), leaves) && KeepsOthers(Written(carried, leaves), carried, leaves)
  {
    hide Dotted, HoldsLeaves, KeepsOthers, Written;
    if leaves == [] {
      NothingIsHeld(carried);
    } else {
      var n := |leaves| - 1;
      var m := Written(carried, leaves[..n]);
      WrittenHolds(carried, leaves[..n]);
      OneMoreLeaf(m, leaves[..n], leaves[n]);
      OneMoreName(m, carried, leaves[..n], leaves[n]);
      WrittenLast(carried, leaves);
      assert leaves == leaves[..n] + [leaves[n]];
    }
  }

  lemma NothingIsHeld(carried: Fields)
    ensures Written(carried, []) == carried && HoldsLeaves(carried, []) && KeepsOthers(carried, carried, [])
  {
  }

  lemma WrittenLast(carried: Fields, leaves: seq<Field>)
    requires leaves != []
    ensures var n := |leaves| - 1;
      Written(carried, leaves) == Written(carried, leaves[..n])[Dotted(leaves[n].path) := leaves[n].text]
  {
  }

  lemma {:induction false} WrittenInTurn(carried: Fields, a: seq<Field>, b: seq<Field>)
    ensures Written(carried, a + b) == Written(Written(carried, a), b)
    decreases |b|
  {
    if b == [] {
      assert a + b == a;
    } else {
      assert (a + b)[..|a + b| - 1] == a + b[..|b| - 1];
      WrittenInTurn(carried, a, b[..|b| - 1]);
    }
  }

  lemma {:induction false} DottedIsJoined(path: seq<string>)
    ensures Dotted(path) == Join(path, ".")
  {
    if |path| > 1 {
      var n := |path| - 1;
      DottedIsJoined(path[..n]);
      JoinGrows(path[..n], path[n]);
      assert path == path[..n] + [path[n]];
    }
  }

  lemma KeyIsDotted(groups: seq<string>, key: string)
    ensures Dotted(groups + [key]) == Prefix(groups) + key
  {
    DottedIsJoined(groups + [key]);
    if groups != [] {
      JoinGrows(groups, key);
    }
  }

  lemma {:induction false} AddedIsWritten(fields: Fields, groups: seq<string>, attr: Attr)
    ensures Added(fields, Prefix(groups), attr) == Written(fields, Leaves(groups, attr))
    decreases attr, 1
  {
    hide Prefix, Dotted;
    match attr.value
    case Leaf(text) =>
      if attr.key != "" {
        KeyIsDotted(groups, attr.key);
        assert Leaves(groups, attr)[..0] == [];
      }
    case Group(members) =>
      PrefixGrows(groups, attr.key);
      assert Prefix(groups) + attr.key + "." == Prefix(groups) + (attr.key + ".");
      AllAddedIsWritten(fields, if attr.key == "" then groups else groups + [attr.key], members);
  }

  lemma {:induction false} AllAddedIsWritten(fields: Fields, groups: seq<string>, attrs: seq<Attr>)
    ensures AddedAll(fields, Prefix(groups), attrs) == Written(fields, AllLeaves(groups, attrs))
    decreases attrs, 0
  {
    hide Prefix, Dotted, Written;
    if attrs == [] {
      NothingIsHeld(fields);
    } else {
      AddedIsWritten(fields, groups, attrs[0]);
      var first := Added(fields, Prefix(groups), attrs[0]);
      AllAddedIsWritten(first, groups, attrs[1..]);
      WrittenInTurn(fields, Leaves(groups, attrs[0]), AllLeaves(groups, attrs[1..]));
    }
  }

  lemma {:induction false} ChainIsWritten(h: State, chain: seq<Step>, attrs: seq<Attr>)
    ensures Logged(DerivedAll(h, chain), attrs) == Written(h.fields, ChainLeaves(h.groups, chain, attrs))
    decreases |chain|
  {
    hide Prefix, Written;
    if chain == [] {
      AllAddedIsWritten(h.fields, h.groups, attrs);
    } else {
      ChainIsWritten(Derived(h, chain[0]), chain[1..], attrs);
      match chain[0]
      case With(more) =>
        AllAddedIsWritten(h.fields, h.groups, more);
        WrittenInTurn(h.fields, AllLeaves(h.groups, more), ChainLeaves(h.groups, chain[1..], attrs));
      case Open(name) =>
    }
  }

  /**
    A record logged through any chain holds, under the dotted path of each leaf, the text of the last leaf with that
    path, and under every other key what the first handler carried.
   */
  lemma ChainLogsLeaves(h: State, chain: seq<Step>, attrs: seq<Attr>)
    ensures var m, leaves := Logged(DerivedAll(h, chain), attrs), ChainLeaves(h.groups, chain, attrs);
      && (forall i :: 0 <= i < |leaves| ==>
            (forall j :: i < j < |leaves| ==> Dotted(leaves[j].path) != Dotted(leaves[i].path)) ==>
            Dotted(leaves[i].path) in m && m[Dotted(leaves[i].path)] == leaves[i].text)
      && (forall key :: (forall i :: 0 <= i < |leaves| ==> Dotted(leaves[i].path) != key) ==>
            (if key in h.fields then key in m && m[key] == h.fields[key] else key !in m))
  {
    hide Logged, DerivedAll, ChainLeaves, Dotted;
    ChainIsWritten(h, chain, attrs);
    var m, leaves := Logged(DerivedAll(h, chain), attrs), ChainLeaves(h.groups, chain, attrs);
    WrittenHolds(h.fields, leaves);
    forall i | 0 <= i < |leaves|
      && (forall j :: i < j < |leaves| ==> Dotted(leaves[j].path) != Dotted(leaves[i].path))
      ensures Dotted(leaves[i].path) in m && m[Dotted(leaves[i].path)] == leaves[i].text
    {
      assert Last(leaves, i);
    }
    forall key | forall i :: 0 <= i < |leaves| ==> Dotted(leaves[i].path) != key
      ensures if key in h.fields then key in m && m[key] == h.fields[key] else key !in m
    {
      assert !Named(leaves, key);
    }
  }

  /** One leaf on a handler with open groups. */
  lemma LeafIsLoggedUnderItsPath(h: State, key: string, text: string)
    ensures key != "" ==> Logged(h, [Attr(key, Leaf(text))]) == h.fields[Prefix(h.groups) + key := text]
    ensures key == "" ==> Logged(h, [Attr(key, Leaf(text))]) == h.fields
    ensures Prefix([]) == ""
  {
    var attr := Attr(key, Leaf(text));
    assert [attr][1..] == [];
    assert AddedAll(h.fields, Prefix(h.groups), [attr]) == Added(h.fields, Prefix(h.groups), attr);
  }

  // ------------------------------------------------------------ the handler

  datatype Level = LevelDebug | LevelInfo | LevelWarning | LevelError

  /** slog.LevelInfo is 0, slog.LevelWarn is 4 and slog.LevelError is 8. */
  function SlogLevel(level: int): Level {
    if level >= 8 then LevelError else if level >= 4 then LevelWarning else if level >= 0 then LevelInfo else LevelDebug
  }

  datatype Line = Line(level: Level, message: string, fields: Fields)

  class Logger {
    var lines: seq<Line>

    constructor ()
      ensures lines == []
    {
      lines := [];
    }

    method Log(level: Level, message: string, fields: Fields)
      modifies this
      ensures lines == old(lines) + [Line(level, message, fields)]
    {
      lines := lines + [Line(level, message, fields)];
    }
  }

  /** A Go map: handlers that share one see each other's writes. */
  class FieldMap {
    var entries: Fields

    constructor (entries: Fields)
      ensures this.entries == entries
    {
      this.entries := entries;
    }

    method AddAttr(prefix: string, attr: Attr)
      modifies this
      ensures entries == Added(old(entries), prefix, attr)
      decreases attr
    {
      if attr.key == "" && attr.value.Leaf? {
        return;
      }
      if attr.value.Group? {
        var groupPrefix := prefix;
        if attr.key != "" {
          groupPrefix := prefix + attr.key + ".";
        }
        AddAttrs(groupPrefix, attr.value.members);
        return;
      }
      entries := entries[prefix + attr.key := attr.value.text];
    }

    method AddAttrs(prefix: string, attrs: seq<Attr>)
      modifies this
      ensures entries == AddedAll(old(entries), prefix, attrs)
      decreases attrs, 0
    {
      assert attrs[0..] == attrs;
      for i := 0 to |attrs|
        invariant AddedAll(entries, prefix, attrs[i..]) == AddedAll(old(entries), prefix, attrs)
      {
        assert attrs[i..][0] == attrs[i] && attrs[i..][1..] == attrs[i + 1..];
        AddAttr(prefix, attrs[i]);
      }
    }
  }

  class SlogHandler {
    const logger: Logger
    const fields: FieldMap
    const groups: seq<string>

    function Carried(): State
      reads fields
    {
      State(fields.entries, groups)
    }

    constructor (logger: Logger)
      ensures this.logger == logger && fresh(fields) && Carried() == State(map[], [])
    {
      this.logger := logger;
      fields := new FieldMap(map[]);
      groups := [];
    }

    constructor Copy(logger: Logger, fields: FieldMap, groups: seq<string>)
      ensures this.logger == logger && this.fields == fields && this.groups == groups
    {
      this.logger, this.fields, this.groups := logger, fields, groups;
    }

    /** Logs the record and leaves the handler as it was. */
    method Handle(level: int, message: string, attrs: seq<Attr>)
      modifies logger
      ensures logger.lines == old(logger.lines) + [Line(SlogLevel(level), message, Logged(Carried(), attrs))]
      ensures SlogLevel(level) == if level < 0 then LevelDebug else if level < 4 then LevelInfo
                                  else if level < 8 then LevelWarning else LevelError
      ensures Carried() == old(Carried())
    {
      var lineFields := new FieldMap(fields.entries);
      lineFields.AddAttrs(Prefix(groups), attrs);
      logger.Log(SlogLevel(level), message, lineFields.entries);
    }

    /** Derives a handler with its own map; writes to it never reach the parent. */
    method WithAttrs(attrs: seq<Attr>) returns (copied: SlogHandler)
      ensures fresh(copied) && fresh(copied.fields) && copied.logger == logger
      ensures copied.Carried() == Derived(Carried(), With(attrs)) && Carried() == old(Carried())
    {
      var copiedFields := new FieldMap(fields.entries);
      copiedFields.AddAttrs(Prefix(groups), attrs);
      copied := new SlogHandler.Copy(logger, copiedFields, groups);
    }

    /** Derives a handler that shares the parent's map, which no handler writes after building it. */
    method WithGroup(name: string) returns (derived: SlogHandler)
      ensures derived == this || fresh(derived)
      ensures derived.logger == logger && derived.fields == fields
      ensures derived.Carried() == Derived(Carried(), Open(name)) && Carried() == old(Carried())
    {
      if name == "" {
        return this;
      }
      derived := new SlogHandler.Copy(logger, fields, groups + [name]);
    }
  }
}
