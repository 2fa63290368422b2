/**
 The log handler that keeps its base ungrouped and replays the groups and attributes a
 caller applied, so that the correlation id can be added at the top level.

 Attribute groups, group values and records follow log/slog: a group value and a record
 drop the empty groups they are given.
 */
module Logger {

  datatype Attr = Leaf(key: string, value: string) | Group(key: string, members: seq<Attr>)

  datatype Header = Header(time: int, level: int, message: string, pc: nat)

  datatype Record = Record(header: Header, attrs: seq<Attr>)

  /** One WithGroup or WithAttrs, by value. */
  datatype Link = GroupLink(name: string) | AttrsLink(attrs: seq<Attr>)

  const CORRELATION_ID := "correlation_id"

  predicate IsEmptyGroup(a: Attr) { a.Group? && a.members == [] }

  /** What slog.GroupValue keeps of its arguments, and Record.AddAttrs of its own. */
  function DropEmpty(attrs: seq<Attr>): (kept: seq<Attr>) {
    if attrs == [] then []
    else (if IsEmptyGroup(attrs[0]) then [] else [attrs[0]]) + DropEmpty(attrs[1..])
  }

  /** The attributes whose own key is not the correlation id's. */
  function Unshadowed(attrs: seq<Attr>): (kept: seq<Attr>) {
    if attrs == [] then []
    else (if attrs[0].key == CORRELATION_ID then [] else [attrs[0]]) + Unshadowed(attrs[1..])
  }

  /** The record's own attributes seen through a chain: each group link wraps everything after it, unless that is empty. */
  function Replay(chain: seq<Link>, own: seq<Attr>): seq<Attr> {
    if chain == [] then own
    else
      var inner := Replay(chain[1..], own);
      match chain[0]
      case GroupLink(name) => if inner == [] then [] else [Group(name, DropEmpty(inner))]
      case AttrsLink(attrs) => attrs + inner
  }

  /** What reaches the base handler; id is "" when the context carries none. */
  function Emitted(chain: seq<Link>, id: string, r: Record): Record {
    var attrs := Replay(chain, r.attrs);
    Record(r.header, if id == "" then DropEmpty(attrs) else DropEmpty(Unshadowed(attrs)) + [Leaf(CORRELATION_ID, id)])
  }

  // ----- the handler -----

  /** The wrapped slog.Handler, as the list of records it was given. */
  class Base {
    var records: seq<Record>

    constructor ()
      ensures records == []
    {
      records := [];
    }

    method Handle(r: Record)
      modifies this
      ensures records == old(records) + [r]
    {
      records := records + [r];
    }
  }

  /** One link as stored: an attrs link keeps the caller's slice. */
  datatype GroupOrAttrs = WithName(group: string) | WithSlice(attrs: array<Attr>)

  class Handler {
    const base: Base
    const goas: array<GroupOrAttrs>

    constructor (base: Base, goas: array<GroupOrAttrs>)
      ensures this.base == base && this.goas == goas
    {
      this.base := base;
      this.goas := goas;
    }

    /** The slices the chain refers to. */
    ghost function Slices(): set<object>
      reads goas
    {
      set i | 0 <= i < goas.Length && goas[i].WithSlice? :: goas[i].attrs as object
    }

    /** The chain by value. */
    ghost function Chain(): (chain: seq<Link>)
      reads goas, Slices()
      ensures |chain| == goas.Length
    {
      seq(goas.Length, i requires 0 <= i < goas.Length reads goas, Slices() => LinkAt(i))
    }

    ghost function LinkAt(i: nat): Link
      requires i < goas.Length
      reads goas, Slices()
    {
      match goas[i]
      case WithName(name) => GroupLink(name)
      case WithSlice(attrs) => assert attrs as object in Slices(); AttrsLink(attrs[..])
    }

    /** A copy of this handler with one more link, in an array of its own. */
    method WithGoa(goa: GroupOrAttrs) returns (next: Handler)
      ensures fresh(next) && fresh(next.goas) && next.base == base
      ensures next.goas[..] == goas[..] + [goa]
      ensures goa.WithName? ==> next.Chain() == Chain() + [GroupLink(goa.group)]
      ensures goa.WithSlice? ==> next.Chain() == Chain() + [AttrsLink(goa.attrs[..])]
    {
      var links := new GroupOrAttrs[goas.Length + 1](_ => goa);
      for i := 0 to goas.Length
        invariant links[..i] == goas[..i] && links[goas.Length] == goa
      {
        links[i] := goas[i];
      }
      assert links[..] == links[..goas.Length] + [goa] && goas[..goas.Length] == goas[..];
      links[links.Length - 1] := goa;
      next := new Handler(base, links);
      forall i | 0 <= i < goas.Length ensures next.LinkAt(i) == LinkAt(i) {
        assert links[..][i] == goas[..][i];
      }
    }

    method WithAttrs(attrs: array<Attr>) returns (next: Handler)
      ensures next.base == base
      ensures next.Chain() == if attrs.Length == 0 then Chain() else Chain() + [AttrsLink(attrs[..])]
      ensures next != this ==> fresh(next) && fresh(next.goas)
    {
      if attrs.Length == 0 {
        return this;
      }
      next := WithGoa(WithSlice(attrs));
    }

    method WithGroup(name: string) returns (next: Handler)
      ensures next.base == base
      ensures next.Chain() == if name == "" then Chain() else Chain() + [GroupLink(name)]
      ensures next != this ==> fresh(next) && fresh(next.goas)
    {
      if name == "" {
        return this;
      }
      next := WithGoa(WithName(name));
    }

    /** Handle's walk over the chain, from the innermost link outwards. */
    method ReplayBackwards(own: seq<Attr>) returns (attrs: array<Attr>)
      ensures fresh(attrs) && attrs[..] == Replay(old(Chain()), own)
    {
      ghost var chain := Chain();
      attrs := Collect(own);
      var i := goas.Length;
      while i > 0
        invariant 0 <= i <= goas.Length
        invariant fresh(attrs) && attrs[..] == Replay(chain[i..], own)
        invariant Chain() == chain
      {
        i := i - 1;
        var goa := goas[i];
        assert chain[i..][1..] == chain[i + 1..] && chain[i] == LinkAt(i);
        match goa
        case WithName(name) =>
          if attrs.Length != 0 {
            var group := Group(name, DropEmpty(attrs[..]));
            attrs := new Attr[1](_ => group);
          }
        case WithSlice(slice) =>
          attrs := CloneAndAppend(slice, attrs);
      }
      assert chain[0..] == chain;
    }

    /** Only the base's records change: no chain, no caller's slice. */
    method Handle(id: string, r: Record)
      modifies base
      ensures base.records == old(base.records) + [Emitted(old(Chain()), id, r)]
    {
      hide Replay, Unshadowed;
      var attrs := ReplayBackwards(r.attrs);
      if id != "" {
        var n := DeleteShadowing(attrs);
        OneKept(Leaf(CORRELATION_ID, id));
        base.Handle(Record(r.header, DropEmpty(attrs[..n]) + DropEmpty([Leaf(CORRELATION_ID, id)])));
        return;
      }
      base.Handle(Record(r.header, DropEmpty(attrs[..])));
    }
  }

  lemma OneKept(a: Attr)
    requires !IsEmptyGroup(a)
    ensures DropEmpty([a]) == [a]
  {
    assert [a][1..] == [];
  }

  method Collect(own: seq<Attr>) returns (attrs: array<Attr>)
    ensures fresh(attrs) && attrs[..] == own
  {
    attrs := new Attr[|own|](i requires 0 <= i < |own| => own[i]);
  }

  /** append(slices.Clone(first), second...): new storage. */
  method CloneAndAppend(first: array<Attr>, second: array<Attr>) returns (both: array<Attr>)
    ensures fresh(both) && both[..] == first[..] + second[..]
  {
    both := new Attr[first.Length + second.Length];
    for i := 0 to first.Length
      invariant both[..i] == first[..i]
    {
      both[i] := first[i];
    }
    assert first[..first.Length] == first[..];
    for i := 0 to second.Length
      invariant both[..first.Length] == first[..] && both[first.Length..first.Length + i] == second[..i]
    {
      both[first.Length + i] := second[i];
    }
    assert both[..] == both[..first.Length] + both[first.Length..first.Length + second.Length];
    assert second[..second.Length] == second[..];
  }

  /** slices.DeleteFunc: compacts in place, clears the tail, returns the new length. */
  method DeleteShadowing(a: array<Attr>) returns (n: nat)
    modifies a
    ensures n <= a.Length && a[..n] == Unshadowed(old(a[..]))
  {
    ghost var was := a[..];
    n := 0;
    for j := 0 to a.Length
      invariant n <= j && a[..n] == Unshadowed(was[..j])
      invariant forall k :: j <= k < a.Length ==> a[k] == was[k]
    {
      var v := a[j];
      assert was[..j + 1] == was[..j] + [v];
      UnshadowedAppend(was[..j], [v]);
      if v.key != CORRELATION_ID {
        a[n] := v;
        n := n + 1;
        assert a[..n] == Unshadowed(was[..j]) + [v];
      }
    }
    assert was[..a.Length] == was;
    ghost var kept := a[..n];
    for j := n to a.Length
      invariant a[..n] == kept
    {
      a[j] := Leaf("", "");
    }
  }

  lemma {:induction false} UnshadowedAppend(a: seq<Attr>, b: seq<Attr>)
    ensures Unshadowed(a + b) == Unshadowed(a) + Unshadowed(b)
  {
    if a == [] {
      assert a + b == b;
    } else {
      assert (a + b)[1..] == a[1..] + b;
      UnshadowedAppend(a[1..], b);
    }
  }

  // ----- what a replay means -----

  /** A leaf with the keys of the groups around it, outermost first, and its own key last. */
  datatype Field = Field(path: seq<string>, value: string)

  /** Every leaf of attrs, in order, under path. */
  function Leaves(attrs: seq<Attr>, path: seq<string>): seq<Field> {
    if attrs == [] then []
    else LeavesOf(attrs[0], path) + Leaves(attrs[1..], path)
  }

  function LeavesOf(a: Attr, path: seq<string>): seq<Field> {
    match a
    case Leaf(key, value) => [Field(path + [key], value)]
    case Group(key, members) => Leaves(members, path + [key])
  }

  /** The chain read forwards: a group link opens a path for all that follows, an attrs link contributes where it stands. */
  function Walk(chain: seq<Link>, own: seq<Attr>, path: seq<string>): seq<Field> {
    if chain == [] then Leaves(own, path)
    else
      match chain[0]
      case GroupLink(name) => Walk(chain[1..], own, path + [name])
      case AttrsLink(attrs) => Leaves(attrs, path) + Walk(chain[1..], own, path)
  }

  lemma {:induction false} LeavesAppend(a: seq<Attr>, b: seq<Attr>, path: seq<string>)
    ensures Leaves(a + b, path) == Leaves(a, path) + Leaves(b, path)
  {
    if a == [] {
      assert a + b == b;
    } else {
      assert (a + b)[1..] == a[1..] + b;
      LeavesAppend(a[1..], b, path);
    }
  }

  lemma LeavesOfOne(a: Attr, path: seq<string>)
    ensures Leaves([a], path) == LeavesOf(a, path)
  {
    assert [a][1..] == [];
    assert LeavesOf(a, path) + [] == LeavesOf(a, path);
  }

  lemma {:induction false} LeavesDropEmpty(attrs: seq<Attr>, path: seq<string>)
    ensures Leaves(DropEmpty(attrs), path) == Leaves(attrs, path)
  {
    if attrs != [] {
      LeavesDropEmpty(attrs[1..], path);
      if IsEmptyGroup(attrs[0]) {
        assert [] + DropEmpty(attrs[1..]) == DropEmpty(attrs[1..]);
        assert LeavesOf(attrs[0], path) == [];
        assert Leaves(attrs, path) == Leaves(attrs[1..], path);
      } else {
        LeavesAppend([attrs[0]], DropEmpty(attrs[1..]), path);
        LeavesOfOne(attrs[0], path);
      }
    }
  }

  /** Replaying backwards puts every attribute exactly where reading the chain forwards does. */
  lemma {:induction false} ReplayIsWalk(chain: seq<Link>, own: seq<Attr>, path: seq<string>)
    ensures Leaves(Replay(chain, own), path) == Walk(chain, own, path)
    decreases |chain|
  {
    if chain != [] {
      var inner := Replay(chain[1..], own);
      match chain[0]
      case GroupLink(name) =>
        ReplayIsWalk(chain[1..], own, path + [name]);
        LeavesDropEmpty(inner, path + [name]);
        if inner != [] {
          assert Leaves([Group(name, DropEmpty(inner))], path) == Leaves(DropEmpty(inner), path + [name]) + Leaves([], path);
        }
      case AttrsLink(attrs) =>
        ReplayIsWalk(chain[1..], own, path);
        LeavesAppend(attrs, inner, path);
    }
  }

  // ----- the correlation id -----

  /** The fields that are not under, and are not, a top-level correlation_id. */
  function NotUnderId(fields: seq<Field>): seq<Field> {
    if fields == [] then [] else UnlessUnderId(fields[0]) + NotUnderId(fields[1..])
  }

  function UnlessUnderId(f: Field): seq<Field> {
    if f.path != [] && f.path[0] == CORRELATION_ID then [] else [f]
  }

  lemma {:induction false} NotUnderIdAppend(a: seq<Field>, b: seq<Field>)
    ensures NotUnderId(a + b) == NotUnderId(a) + NotUnderId(b)
  {
    if a == [] {
      assert a + b == b;
    } else {
      hide UnlessUnderId;
      assert (a + b)[1..] == a[1..] + b;
      NotUnderIdAppend(a[1..], b);
    }
  }

  /** All fields of attrs sit below path. */
  lemma {:induction false} LeavesBelow(attrs: seq<Attr>, path: seq<string>)
    ensures forall f :: f in Leaves(attrs, path) ==> path < f.path
    decreases attrs
  {
    if attrs != [] {
      LeavesBelow(attrs[1..], path);
      match attrs[0]
      case Leaf(_, _) =>
      case Group(key, members) =>
        LeavesBelow(members, path + [key]);
        forall f | f in Leaves(members, path + [key]) ensures path < f.path {}
    }
  }

  lemma {:induction false} NotUnderIdAllOrNone(fields: seq<Field>, key: string)
    requires forall f :: f in fields ==> f.path != [] && f.path[0] == key
    ensures NotUnderId(fields) == if key == CORRELATION_ID then [] else fields
  {
    if fields != [] {
      assert fields[0] in fields;
      NotUnderIdAllOrNone(fields[1..], key);
      assert fields == [fields[0]] + fields[1..];
    }
  }

  lemma FieldsOfAttr(a: Attr)
    ensures NotUnderId(LeavesOf(a, [])) == if a.key == CORRELATION_ID then [] else LeavesOf(a, [])
  {
    match a
    case Leaf(key, value) =>
      assert [] + [key] == [key];
      NotUnderIdAllOrNone(LeavesOf(a, []), key);
    case Group(key, members) =>
      LeavesBelow(members, [] + [key]);
      forall f | f in LeavesOf(a, []) ensures f.path != [] && f.path[0] == key {
        assert ([] + [key])[0] == key;
      }
      NotUnderIdAllOrNone(LeavesOf(a, []), key);
  }

  /** Filtering attributes by key at the top level filters fields by the first key of their path, and no others. */
  lemma {:induction false} UnshadowedLeaves(attrs: seq<Attr>)
    ensures Leaves(Unshadowed(attrs), []) == NotUnderId(Leaves(attrs, []))
  {
    if attrs != [] {
      UnshadowedLeaves(attrs[1..]);
      FieldsOfAttr(attrs[0]);
      NotUnderIdAppend(LeavesOf(attrs[0], []), Leaves(attrs[1..], []));
      if attrs[0].key != CORRELATION_ID {
        LeavesAppend([attrs[0]], Unshadowed(attrs[1..]), []);
        LeavesOfOne(attrs[0], []);
      } else {
        assert [] + Unshadowed(attrs[1..]) == Unshadowed(attrs[1..]);
        assert [] + NotUnderId(Leaves(attrs[1..], [])) == NotUnderId(Leaves(attrs[1..], []));
      }
    }
  }

  /**
   The fields that reach the base handler are exactly those of the chain read forwards, in order; with an id, less those
   a caller put at or under a top-level correlation_id, and with the context's own id last.
   */
  lemma EmittedFields(chain: seq<Link>, id: string, r: Record)
    ensures var fields := Walk(chain, r.attrs, []);
      Leaves(Emitted(chain, id, r).attrs, []) == if id == "" then fields else NotUnderId(fields) + [Field(["correlation_id"], id)]
    ensures Emitted(chain, id, r).header == r.header
  {
    var attrs := Replay(chain, r.attrs);
    ReplayIsWalk(chain, r.attrs, []);
    if id == "" {
      LeavesDropEmpty(attrs, []);
    } else {
      UnshadowedLeaves(attrs);
      LeavesDropEmpty(Unshadowed(attrs), []);
      LeavesAppend(DropEmpty(Unshadowed(attrs)), [Leaf(CORRELATION_ID, id)], []);
      assert [Leaf(CORRELATION_ID, id)][1..] == [] && [] + [CORRELATION_ID] == [CORRELATION_ID];
      assert Leaves([Leaf(CORRELATION_ID, id)], []) == [Field([CORRELATION_ID], id)];
    }
  }

  lemma {:induction false} KeptAreUnshadowed(attrs: seq<Attr>)
    ensures forall a :: a in DropEmpty(Unshadowed(attrs)) ==> a.key != CORRELATION_ID && a in attrs
  {
    if attrs != [] {
      KeptAreUnshadowed(attrs[1..]);
      forall a | a in DropEmpty(Unshadowed(attrs)) ensures a.key != CORRELATION_ID && a in attrs {
        if attrs[0].key != CORRELATION_ID {
          var u := [attrs[0]] + Unshadowed(attrs[1..]);
          assert u[1..] == Unshadowed(attrs[1..]);
        } else {
          assert [] + Unshadowed(attrs[1..]) == Unshadowed(attrs[1..]);
        }
      }
    }
  }

  /** With an id, exactly one top-level attribute of the emitted record is the correlation id: the last, with the context's value. */
  lemma OneCorrelationID(chain: seq<Link>, id: string, r: Record)
    requires id != ""
    ensures var attrs := Emitted(chain, id, r).attrs;
      && attrs != [] && attrs[|attrs| - 1] == Leaf(CORRELATION_ID, id)
      && forall k :: 0 <= k < |attrs| - 1 ==> attrs[k].key != CORRELATION_ID
  {
    KeptAreUnshadowed(Replay(chain, r.attrs));
  }

  // ----- groups without a key -----

  /** The top-level key a field is rendered under: a handler inlines the members of a group whose key is empty. */
  function TopKey(path: seq<string>): string
    requires path != []
  {
    if |path| == 1 || path[0] != "" then path[0] else TopKey(path[1..])
  }

  /** A field that is not under a top-level correlation_id attribute but is rendered there, out of a group without a key. */
  predicate InlinedAsID(f: Field) {
    f.path != [] && f.path[0] == "" && TopKey(f.path) == CORRELATION_ID
  }

  /** How many fields are rendered at or under the top-level key correlation_id. */
  function RenderedAsID(fields: seq<Field>): nat {
    if fields == [] then 0
    else (if fields[0].path != [] && TopKey(fields[0].path) == CORRELATION_ID then 1 else 0) + RenderedAsID(fields[1..])
  }

  lemma {:induction false} RenderedSnoc(fields: seq<Field>, f: Field)
    ensures RenderedAsID(fields + [f]) == RenderedAsID(fields) + RenderedAsID([f])
  {
    if fields == [] {
      assert [] + [f] == [f];
    } else {
      assert (fields + [f])[1..] == fields[1..] + [f];
      RenderedSnoc(fields[1..], f);
    }
  }

  lemma {:induction false} NoneRenderedIff(fields: seq<Field>)
    ensures RenderedAsID(NotUnderId(fields)) == 0 <==> forall f :: f in fields ==> !InlinedAsID(f)
  {
    if fields != [] {
      NoneRenderedIff(fields[1..]);
      var f := fields[0];
      if f.path != [] && f.path[0] == CORRELATION_ID {
        assert [] + NotUnderId(fields[1..]) == NotUnderId(fields[1..]);
      } else {
        assert ([f] + NotUnderId(fields[1..]))[1..] == NotUnderId(fields[1..]);
        assert f.path != [] && TopKey(f.path) == CORRELATION_ID <==> InlinedAsID(f);
      }
      assert forall g :: g in fields <==> g == f || g in fields[1..];
    }
  }

  /**
   The rendered record carries the correlation id once, and only from the context, exactly when no caller attribute comes
   to the top level as correlation_id out of a group without a key. Attribute values are taken as already resolved.
   */
  lemma IDRenderedOnceIff(chain: seq<Link>, id: string, r: Record)
    requires id != ""
    ensures RenderedAsID(Leaves(Emitted(chain, id, r).attrs, [])) == 1
       <==> forall f :: f in Walk(chain, r.attrs, []) ==> !InlinedAsID(f)
  {
    var fields := Walk(chain, r.attrs, []);
    EmittedFields(chain, id, r);
    RenderedSnoc(NotUnderId(fields), Field([CORRELATION_ID], id));
    NoneRenderedIff(fields);
    assert [Field([CORRELATION_ID], id)][1..] == [];
  }

  /** It is not always so: one keyless group is enough. */
  lemma IDRenderedTwice(h: Header)
    ensures var own := [Group("", [Leaf(CORRELATION_ID, "other")])];
            RenderedAsID(Leaves(Emitted([], "id", Record(h, own)).attrs, [])) != 1
  {
    var own := [Group("", [Leaf(CORRELATION_ID, "other")])];
    var f := Field(["", CORRELATION_ID], "other");
    LeavesOfOne(own[0], []);
    LeavesOfOne(Leaf(CORRELATION_ID, "other"), [""]);
    assert [] + [""] == [""] && [""] + [CORRELATION_ID] == ["", CORRELATION_ID];
    assert Walk([], own, []) == [f];
    assert f.path[1..] == [CORRELATION_ID];
    assert InlinedAsID(f);
    IDRenderedOnceIff([], "id", Record(h, own));
  }

  // ----- empty groups -----

  /** No group anywhere in attrs is empty. */
  predicate NoEmptyGroup(attrs: seq<Attr>) {
    forall a :: a in attrs ==> a.Group? ==> a.members != [] && NoEmptyGroup(a.members)
  }

  /** Attributes as slog builds them: a group's value has already dropped its empty members. */
  predicate Built(attrs: seq<Attr>) {
    forall a :: a in attrs && a.Group? ==> NoEmptyGroup(a.members)
  }

  lemma {:induction false} DropEmptyOfBuilt(attrs: seq<Attr>)
    requires Built(attrs)
    ensures NoEmptyGroup(DropEmpty(attrs))
  {
    if attrs != [] {
      DropEmptyOfBuilt(attrs[1..]);
    }
  }

  lemma {:induction false} ReplayIsBuilt(chain: seq<Link>, own: seq<Attr>)
    requires Built(own) && forall l :: l in chain && l.AttrsLink? ==> Built(l.attrs)
    ensures Built(Replay(chain, own))
  {
    if chain != [] {
      ReplayIsBuilt(chain[1..], own);
      DropEmptyOfBuilt(Replay(chain[1..], own));
    }
  }

  /** The emitted record holds no empty group at any depth: not one the chain opened, nor one a caller passed. */
  lemma NoEmptyGroupEmitted(chain: seq<Link>, id: string, r: Record)
    requires Built(r.attrs) && forall l :: l in chain && l.AttrsLink? ==> Built(l.attrs)
    ensures NoEmptyGroup(Emitted(chain, id, r).attrs)
  {
    var attrs := Replay(chain, r.attrs);
    ReplayIsBuilt(chain, r.attrs);
    DropEmptyOfBuilt(attrs);
    UnshadowedSubset(attrs);
    DropEmptyOfBuilt(Unshadowed(attrs));
  }

  lemma {:induction false} UnshadowedSubset(attrs: seq<Attr>)
    ensures forall a :: a in Unshadowed(attrs) ==> a in attrs
  {
    if attrs != [] {
      UnshadowedSubset(attrs[1..]);
    }
  }

  // ----- trees of derived handlers -----

  /** A step of a program that holds handlers: derive one from handler `from`, or log through it. */
  datatype Step = DeriveGroup(from: nat, name: string) | DeriveAttrs(from: nat, attrs: seq<Attr>) | Log(from: nat, id: string, record: Record)

  /** What a derivation makes of a chain. */
  function Derived(chain: seq<Link>, s: Step): seq<Link> {
    match s
    case DeriveGroup(_, name) => if name == "" then chain else chain + [GroupLink(name)]
    case DeriveAttrs(_, attrs) => if attrs == [] then chain else chain + [AttrsLink(attrs)]
    case Log(_, _, _) => chain
  }

  /** The chains after a step, by value; a derivation adds one handler at the end. */
  function ChainsAfter(chains: seq<seq<Link>>, s: Step): seq<seq<Link>> {
    if s.from >= |chains| || s.Log? then chains else chains + [Derived(chains[s.from], s)]
  }

  /** All chains and all emitted records of a program, computed without any handler. */
  function Outcome(chains: seq<seq<Link>>, steps: seq<Step>): (seq<seq<Link>>, seq<Record>) {
    if steps == [] then (chains, [])
    else
      var (before, emitted) := Outcome(chains, steps[..|steps| - 1]);
      var s := steps[|steps| - 1];
      (ChainsAfter(before, s),
       if s.Log? && s.from < |before| then emitted + [Emitted(before[s.from], s.id, s.record)] else emitted)
  }

  /** Handling a record leaves every handler's chain as it was. */
  method HandleThrough(h: Handler, handlers: seq<Handler>, id: string, r: Record)
    modifies h.base
    ensures h.base.records == old(h.base.records) + [Emitted(old(h.Chain()), id, r)]
    ensures forall k :: 0 <= k < |handlers| ==> handlers[k].Chain() == old(handlers[k].Chain())
  {
    hide Emitted, Handler.Chain;
    h.Handle(id, r);
    forall k | 0 <= k < |handlers| ensures handlers[k].Chain() == old(handlers[k].Chain()) {
      assert unchanged(handlers[k].goas) && h.base as object !in old(handlers[k].Slices());
    }
  }

  /** Deriving a handler leaves every handler's chain as it was. */
  method DeriveThrough(h: Handler, handlers: seq<Handler>, s: Step) returns (next: Handler)
    requires !s.Log?
    ensures next.base == h.base && next.Chain() == Derived(old(h.Chain()), s)
    ensures forall k :: 0 <= k < |handlers| ==> handlers[k].Chain() == old(handlers[k].Chain())
  {
    match s
    case DeriveGroup(_, name) =>
      next := h.WithGroup(name);
    case DeriveAttrs(_, attrs) =>
      var slice := Collect(attrs);
      next := h.WithAttrs(slice);
  }

  /** One step, over handlers whose chains are known. */
  method RunStep(root: Handler, handlers: seq<Handler>, s: Step, ghost chains: seq<seq<Link>>) returns (after: seq<Handler>)
    requires |handlers| == |chains|
    requires forall k :: 0 <= k < |handlers| ==> handlers[k].base == root.base && handlers[k].Chain() == chains[k]
    modifies root.base
    ensures |after| == |ChainsAfter(chains, s)|
    ensures forall k :: 0 <= k < |after| ==> after[k].base == root.base && after[k].Chain() == ChainsAfter(chains, s)[k]
    ensures root.base.records == old(root.base.records) + if s.Log? && s.from < |chains| then [Emitted(chains[s.from], s.id, s.record)] else []
  {
    hide Emitted, Derived, Handler.Chain;
    after := handlers;
    if s.from < |handlers| {
      var h := handlers[s.from];
      if s.Log? {
        HandleThrough(h, handlers, s.id, s.record);
      } else {
        var next := DeriveThrough(h, handlers, s);
        after := handlers + [next];
      }
    }
  }

  /**
   Any program over any tree of handlers derived from one root behaves as if each handler were its chain by value: no
   derivation and no Handle call changes what another handler replays, and each record is emitted through its own chain.
   */
  method RunProgram(root: Handler, steps: seq<Step>) returns (handlers: seq<Handler>)
    modifies root.base
    ensures var (chains, emitted) := Outcome([old(root.Chain())], steps);
      && |handlers| == |chains|
      && (forall k :: 0 <= k < |handlers| ==> handlers[k].base == root.base && handlers[k].Chain() == chains[k])
      && root.base.records == old(root.base.records) + emitted
  {
    hide Emitted;
    handlers := [root];
    ghost var start := [root.Chain()];
    for i := 0 to |steps|
      invariant |handlers| == |Outcome(start, steps[..i]).0|
      invariant forall k :: 0 <= k < |handlers| ==> handlers[k].base == root.base && handlers[k].Chain() == Outcome(start, steps[..i]).0[k]
      invariant root.base.records == old(root.base.records) + Outcome(start, steps[..i]).1
    {
      assert steps[..i + 1][..i] == steps[..i];
      handlers := RunStep(root, handlers, steps[i], Outcome(start, steps[..i]).0);
    }
    assert steps[..|steps|] == steps;
  }
}
