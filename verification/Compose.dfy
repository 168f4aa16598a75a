/** The changes a module's response makes to the desired state
    (crates/function/src/compose.rs) and the fence that judges them
    (crates/function/src/admission.rs). Cedar's decisions are parameters. */
module Compose {
  import opened Base
  import Order

  // ------------------------------------------------------- states and kinds

  /** A field of a resource body: a string, or any other value. */
  datatype Field = Text(text: string) | Other(value: int)

  /** `details` stands for the connection details and the ready flag. */
  datatype Resource = Resource(body: Option<map<string, Field>>, details: int)

  datatype State = State(resources: map<string, Resource>, composite: Option<Resource>)

  datatype Kind = Kind(group: string, kind: string)

  const CORE_GROUP := "core"
  const NO_KIND := Kind("", "")

  /** `rsplit_once('/')`, its left part */
  function BeforeLastSlash(s: string): Option<string> {
    if s == "" then None
    else if s[|s| - 1] == '/' then Some(s[..|s| - 1])
    else BeforeLastSlash(s[..|s| - 1])
  }

  function GroupOf(apiVersion: string): string {
    match BeforeLastSlash(apiVersion)
    case Some(group) => if group != "" then group else CORE_GROUP
    case None => CORE_GROUP
  }

  function StringField(body: map<string, Field>, key: string): Option<string> {
    if key in body && body[key].Text? && body[key].text != "" then Some(body[key].text) else None
  }

  function KindOf(r: Resource): Option<Kind> {
    if r.body.None? then None
    else
      var apiVersion, kind := StringField(r.body.value, "apiVersion"), StringField(r.body.value, "kind");
      if apiVersion.None? || kind.None? then None else Some(Kind(GroupOf(apiVersion.value), kind.value))
  }

  /** A missing kind read as empty, as it is in the request. */
  function KindOrEmpty(r: Resource): Kind {
    if KindOf(r).Some? then KindOf(r).value else NO_KIND
  }

  lemma {:induction false} LastSlash(group: string, version: string)
    requires NoSlash(version)
    ensures BeforeLastSlash(group + "/" + version) == Some(group)
    decreases |version|
  {
    var s := group + "/" + version;
    if version == "" {
      assert s[..|s| - 1] == group;
    } else {
      var shorter := version[..|version| - 1];
      assert s[..|s| - 1] == group + "/" + shorter;
      LastSlash(group, shorter);
    }
  }

  lemma {:induction false} NoLastSlash(s: string)
    requires NoSlash(s)
    ensures BeforeLastSlash(s) == None
  {
    if s != "" { NoLastSlash(s[..|s| - 1]); }
  }

  /** An apiVersion names the group before its last slash, or the core group
      when there is none to name. */
  lemma GroupIsNamed(group: string, version: string)
    requires NoSlash(version)
    ensures group != "" ==> GroupOf(group + "/" + version) == group
    ensures GroupOf("" + "/" + version) == CORE_GROUP && GroupOf(version) == CORE_GROUP
  {
    LastSlash(group, version);
    LastSlash("", version);
    NoLastSlash(version);
  }

  /** A field of the body that is a string and not empty. */
  ghost predicate Reads(r: Resource, key: string, text: string) {
    r.body.Some? && key in r.body.value && r.body.value[key] == Text(text) && text != ""
  }

  /** `apps/v1` names `apps`; `v1` and `/v1` name `core`. */
  ghost predicate NamesGroup(apiVersion: string, group: string) {
    || (group != "" && exists version :: '/' !in version && apiVersion == group + "/" + version)
    || (group == "core" && ('/' !in apiVersion || exists version :: '/' !in version && apiVersion == "/" + version))
  }

  ghost predicate Says(r: Resource, k: Kind) {
    Reads(r, "kind", k.kind) && exists apiVersion :: Reads(r, "apiVersion", apiVersion) && NamesGroup(apiVersion, k.group)
  }

  lemma {:induction false} Split(s: string) returns (group: string, version: string)
    requires '/' in s
    ensures '/' !in version && s == group + "/" + version
    decreases |s|
  {
    var last := |s| - 1;
    assert s == s[..last] + [s[last]];
    if s[last] == '/' {
      group, version := s[..last], "";
    } else {
      group, version := Split(s[..last]);
      version := version + [s[last]];
    }
  }

  lemma GroupOfExactly(apiVersion: string, group: string)
    ensures GroupOf(apiVersion) == group <==> NamesGroup(apiVersion, group)
  {
    hide GroupOf;
    if '/' in apiVersion {
      var g, v := Split(apiVersion);
      GroupIsNamed(g, v);
      assert g == "" ==> apiVersion == "/" + v;
    } else {
      GroupIsNamed(group, apiVersion);
    }
    forall version | '/' !in version { GroupIsNamed(group, version); }
    assert "" + "/" == "/";
  }

  /** The kind a body states, in the body's own fields: any other body, an
      empty or a non-string field among them, states none. */
  lemma KindIsStated(r: Resource, k: Kind)
    ensures KindOf(r) == Some(k) <==> Says(r, k)
  {
    hide GroupOf, NamesGroup;
    if r.body.Some? {
      var apiVersion := StringField(r.body.value, "apiVersion");
      if apiVersion.Some? { GroupOfExactly(apiVersion.value, k.group); }
    }
  }

  // ---------------------------------------------------------------- changes

  datatype ChangeKind = Add | Modify | Remove

  datatype Change = Change(kind: Kind, change: ChangeKind, name: string, composite: bool)

  function Composite(s: Option<State>): Option<Resource> {
    if s.Some? then s.value.composite else None
  }

  function Lookup(s: Option<State>, name: string): Option<Resource> {
    if s.Some? && name in s.value.resources then Some(s.value.resources[name]) else None
  }

  function Keys(s: Option<State>): set<string> {
    if s.Some? then s.value.resources.Keys else {}
  }

  function Diff(before: Option<Resource>, after: Option<Resource>): Option<ChangeKind> {
    match (before, after)
    case (None, None) => None
    case (None, Some(_)) => Some(Add)
    case (Some(_), None) => Some(Remove)
    case (Some(b), Some(a)) => if b != a then Some(Modify) else None
  }

  function CompositeKind(given: Option<Kind>, before: Option<Resource>, after: Option<Resource>): Kind {
    if given.Some? then given.value
    else if after.Some? && KindOf(after.value).Some? then KindOf(after.value).value
    else if before.Some? then KindOrEmpty(before.value)
    else NO_KIND
  }

  /** The composite resource's change, at most one. */
  function CompositeChanges(before: Option<State>, after: Option<State>, given: Option<Kind>): seq<Change> {
    var b, a := Composite(before), Composite(after);
    match Diff(b, a)
    case None => []
    case Some(change) => [Change(CompositeKind(given, b, a), change, "", true)]
  }

  ghost predicate Unkinded(r: Option<Resource>) {
    r.Some? ==> forall k :: !Says(r.value, k)
  }

  /** A composite resource that differs is one change, of the kind that the
      caller gave, or else the response states, or else the request. */
  lemma CompositeIsNamed(before: Option<State>, after: Option<State>, given: Option<Kind>, k: Kind)
    requires Composite(before) != Composite(after)
    ensures var cs, b, a := CompositeChanges(before, after, given), Composite(before), Composite(after);
            && |cs| == 1 && cs[0].name == "" && cs[0].composite
            && cs[0].change == (if b.None? then Add else if a.None? then Remove else Modify)
            && (cs[0].kind == k <==>
                  || given == Some(k)
                  || (given.None? && a.Some? && Says(a.value, k))
                  || (given.None? && Unkinded(a) && b.Some? && Says(b.value, k))
                  || (given.None? && Unkinded(a) && Unkinded(b) && k == Kind("", "")))
  {
    hide KindOf, Says;
    forall r: Resource, l: Kind ensures KindOf(r) == Some(l) <==> Says(r, l) { KindIsStated(r, l); }
    forall r: Resource ensures KindOf(r) == None <==> forall l :: !Says(r, l) {
      if KindOf(r).Some? { assert Says(r, KindOf(r).value); }
    }
  }

  /** What one name's two sides mean to the fence: nothing when they are the
      same, a remove and an add when the kind was replaced. */
  function NameChanges(name: string, before: Option<Resource>, after: Option<Resource>): seq<Change> {
    match (before, after)
    case (None, None) => []
    case (None, Some(a)) => [Change(KindOrEmpty(a), Add, name, false)]
    case (Some(b), None) => [Change(KindOrEmpty(b), Remove, name, false)]
    case (Some(b), Some(a)) =>
      if KindOrEmpty(b) != KindOrEmpty(a) then
        [Change(KindOrEmpty(b), Remove, name, false), Change(KindOrEmpty(a), Add, name, false)]
      else if b != a then [Change(KindOrEmpty(a), Modify, name, false)]
      else []
  }

  predicate Judgeable(after: Option<Resource>) {
    after.Some? ==> KindOf(after.value).Some?
  }

  /** The changes over some names, or the first name that no rule could judge. */
  function ChangesOver(names: seq<string>, before: Option<State>, after: Option<State>): Result<seq<Change>, string> {
    if names == [] then Ok([])
    else
      var b, a := Lookup(before, names[0]), Lookup(after, names[0]);
      if !Judgeable(a) then Err(names[0])
      else
        match ChangesOver(names[1..], before, after)
        case Err(n) => Err(n)
        case Ok(rest) => Ok(NameChanges(names[0], b, a) + rest)
  }

  ghost predicate Ascending(names: seq<string>) {
    forall i, j :: 0 <= i < j < |names| ==> Order.Leq(names[i], names[j]) && names[i] != names[j]
  }

  ghost predicate Lists(names: seq<string>, keys: set<string>) {
    Ascending(names) && forall n :: n in names <==> n in keys
  }

  /** An ordered set of the keys, however a map hands them out. */
  method SortedNames(keys: set<string>) returns (names: seq<string>)
    ensures Lists(names, keys)
  {
    hide Order.Leq;
    names := [];
    var rest := keys;
    while rest != {}
      invariant rest <= keys && Lists(names, keys - rest)
      decreases |rest|
    {
      var n :| n in rest;
      names := Inserted(n, names);
      rest := rest - {n};
    }
  }

  method Inserted(n: string, names: seq<string>) returns (r: seq<string>)
    requires Ascending(names) && n !in names
    ensures Ascending(r) && forall m :: m in r <==> m == n || m in names
  {
    var i := 0;
    while i < |names| && Order.Leq(names[i], n)
      invariant i <= |names|
      invariant forall j :: 0 <= j < i ==> Order.Leq(names[j], n)
    {
      i := i + 1;
    }
    r := names[..i] + [n] + names[i..];
    forall j | i <= j < |names| ensures Order.Leq(n, names[j]) {
      Order.LeqTotal(names[i], n);
      if j > i { Order.LeqTransitive(n, names[i], names[j]); }
    }
    SplitMembers(n, names, i);
  }

  lemma SplitMembers(n: string, names: seq<string>, i: nat)
    requires i <= |names|
    ensures forall m :: m in names[..i] + [n] + names[i..] <==> m == n || m in names
  {
    assert names == names[..i] + names[i..];
  }

  lemma SomeMember(ys: seq<string>)
    ensures ys != [] ==> exists n :: n in ys
  {
    if ys != [] { assert ys[0] in ys; }
  }

  /** The order of a map's keys cannot show: one list is sorted. */
  lemma {:induction false} SortedIsUnique(xs: seq<string>, ys: seq<string>)
    requires Ascending(xs) && Ascending(ys) && forall n :: n in xs <==> n in ys
    ensures xs == ys
    decreases |xs|
  {
    hide Order.Leq;
    if xs == [] {
      SomeMember(ys);
    } else {
      assert xs[0] in ys;
      assert ys[0] in xs;
      Order.LeqTotal(xs[0], ys[0]);
      assert xs[0] == ys[0];
      forall n ensures n in xs[1..] <==> n in ys[1..] {
        assert n in xs <==> n == xs[0] || n in xs[1..];
        assert n in ys <==> n == ys[0] || n in ys[1..];
        assert xs[0] !in xs[1..] && ys[0] !in ys[1..];
      }
      SortedIsUnique(xs[1..], ys[1..]);
    }
  }

  ghost predicate ChangesAre(before: Option<State>, after: Option<State>, given: Option<Kind>, r: Result<seq<Change>, string>) {
    forall names :: Lists(names, Keys(before) + Keys(after)) ==>
      match ChangesOver(names, before, after)
      case Err(n) => r == Err(n)
      case Ok(composed) => r == Ok(CompositeChanges(before, after, given) + composed)
  }

  function Prefixed(done: seq<Change>, r: Result<seq<Change>, string>): Result<seq<Change>, string> {
    match r
    case Err(n) => Err(n)
    case Ok(rest) => Ok(done + rest)
  }

  lemma OneMoreName(names: seq<string>, i: nat, before: Option<State>, after: Option<State>, done: seq<Change>)
    requires i < |names|
    ensures var b, a := Lookup(before, names[i]), Lookup(after, names[i]);
            Prefixed(done, ChangesOver(names[i..], before, after)) ==
            if Judgeable(a) then Prefixed(done + NameChanges(names[i], b, a), ChangesOver(names[i + 1..], before, after))
            else Err(names[i])
  {
    hide NameChanges, Judgeable, Lookup;
    assert names[i..][0] == names[i] && names[i..][1..] == names[i + 1..];
    var b, a := Lookup(before, names[i]), Lookup(after, names[i]);
    if Judgeable(a) && ChangesOver(names[i + 1..], before, after).Ok? {
      var own, rest := NameChanges(names[i], b, a), ChangesOver(names[i + 1..], before, after).value;
      assert (done + own) + rest == done + (own + rest);
    }
  }

  method Changes(before: Option<State>, after: Option<State>, given: Option<Kind>) returns (r: Result<seq<Change>, string>)
    ensures ChangesAre(before, after, given, r)
  {
    hide *;
    var out := CompositeChange(before, after, given);
    ghost var first, done := out, [];
    var names := SortedNames(Keys(before) + Keys(after));
    var i := 0;
    assert names[0..] == names && first + [] == first;
    PrefixNothing(ChangesOver(names, before, after));
    while i < |names|
      invariant i <= |names| && out == first + done
      invariant ChangesOver(names, before, after) == Prefixed(done, ChangesOver(names[i..], before, after))
    {
      OneMoreName(names, i, before, after, done);
      var name := names[i];
      var b, a := Lookup(before, name), Lookup(after, name);
      if !Judgeable(a) {
        Conclude(names, before, after, given, Err(name));
        return Err(name);
      }
      var own := ChangesOf(name, b, a);
      done := done + own;
      out := out + own;
      i := i + 1;
    }
    assert names[i..] == [];
    NoMoreNames(done, before, after);
    Conclude(names, before, after, given, Ok(done));
    r := Ok(out);
  }

  lemma Conclude(
    names: seq<string>, before: Option<State>, after: Option<State>, given: Option<Kind>, over: Result<seq<Change>, string>)
    requires Lists(names, Keys(before) + Keys(after)) && ChangesOver(names, before, after) == over
    ensures ChangesAre(before, after, given, if over.Ok? then Ok(CompositeChanges(before, after, given) + over.value) else over)
  {
    hide Lists, ChangesOver, CompositeChanges;
    OnlyList(names, Keys(before) + Keys(after));
  }

  method CompositeChange(before: Option<State>, after: Option<State>, given: Option<Kind>) returns (out: seq<Change>)
    ensures out == CompositeChanges(before, after, given)
  {
    hide CompositeKind;
    out := [];
    var b, a := Composite(before), Composite(after);
    var change := Diff(b, a);
    if change.Some? { out := [Change(CompositeKind(given, b, a), change.value, "", true)]; }
  }

  method ChangesOf(name: string, b: Option<Resource>, a: Option<Resource>) returns (own: seq<Change>)
    ensures own == NameChanges(name, b, a)
  {
    hide KindOrEmpty;
    if b.Some? && a.Some? && KindOrEmpty(b.value) != KindOrEmpty(a.value) {
      return [Change(KindOrEmpty(b.value), Remove, name, false), Change(KindOrEmpty(a.value), Add, name, false)];
    }
    var change := Diff(b, a);
    if change.None? { return []; }
    own := [Change(KindOrEmpty(if a.Some? then a.value else b.value), change.value, name, false)];
  }

  lemma PrefixNothing(r: Result<seq<Change>, string>)
    ensures Prefixed([], r) == r
  {
    if r.Ok? { assert [] + r.value == r.value; }
  }

  lemma NoMoreNames(done: seq<Change>, before: Option<State>, after: Option<State>)
    ensures Prefixed(done, ChangesOver([], before, after)) == Ok(done)
  {
    assert done + [] == done;
  }

  lemma OnlyList(names: seq<string>, keys: set<string>)
    requires Lists(names, keys)
    ensures forall other :: Lists(other, keys) ==> other == names
  {
    forall other | Lists(other, keys) ensures other == names { SortedIsUnique(other, names); }
  }

  // ------------------------------------------------------------ what it means

  /** It errs exactly when some composed resource of the response states no
      kind, and names the first such. */
  lemma {:induction false} ErrsExactly(names: seq<string>, before: Option<State>, after: Option<State>)
    requires Ascending(names)
    ensures var r := ChangesOver(names, before, after);
            && (r.Err? <==> exists n :: n in names && !Judgeable(Lookup(after, n)))
            && (r.Err? ==>
                  && r.error in names && !Judgeable(Lookup(after, r.error))
                  && forall n :: n in names && !Judgeable(Lookup(after, n)) ==> Order.Leq(r.error, n))
    decreases |names|
  {
    hide Judgeable, Lookup, Order.Leq, NameChanges;
    if names != [] {
      var rest := names[1..];
      assert Ascending(rest);
      ErrsExactly(rest, before, after);
      assert forall n :: n in names <==> n == names[0] || n in rest;
      Order.LeqTotal(names[0], names[0]);
      forall n | n in names ensures Order.Leq(names[0], n) {
        var i :| 0 <= i < |names| && names[i] == n;
      }
    }
  }

  // ----------------------------------------------------------------- replay

  /** Each name's kind. */
  function Kinds(s: Option<State>): map<string, Kind> {
    map n | n in Keys(s) :: KindOrEmpty(Lookup(s, n).value)
  }

  /** Applying changes to kinds: an add must be new, a remove and a modify must
      name what is there. */
  function Replay(m: map<string, Kind>, changes: seq<Change>): Option<map<string, Kind>>
    decreases |changes|
  {
    if changes == [] then Some(m)
    else
      var c := changes[0];
      if c.composite then Replay(m, changes[1..])
      else
        match c.change
        case Add => if c.name in m then None else Replay(m[c.name := c.kind], changes[1..])
        case Modify => if c.name in m && m[c.name] == c.kind then Replay(m, changes[1..]) else None
        case Remove => if c.name in m && m[c.name] == c.kind then Replay(m - {c.name}, changes[1..]) else None
  }

  lemma {:induction false} ReplayAppend(m: map<string, Kind>, xs: seq<Change>, ys: seq<Change>)
    ensures Replay(m, xs + ys) == (match Replay(m, xs) case None => None case Some(n) => Replay(n, ys))
    decreases |xs|
  {
    if xs == [] {
      assert xs + ys == ys;
    } else {
      assert (xs + ys)[1..] == xs[1..] + ys;
      var c := xs[0];
      if c.composite || c.change.Modify? {
        ReplayAppend(m, xs[1..], ys);
      } else if c.change.Add? {
        ReplayAppend(m[c.name := c.kind], xs[1..], ys);
      } else {
        ReplayAppend(m - {c.name}, xs[1..], ys);
      }
    }
  }

  function SetTo(m: map<string, Kind>, n: string, r: Option<Resource>): map<string, Kind> {
    if r.Some? then m[n := KindOrEmpty(r.value)] else m - {n}
  }

  predicate Holds(m: map<string, Kind>, n: string, r: Option<Resource>) {
    if r.Some? then n in m && m[n] == KindOrEmpty(r.value) else n !in m
  }

  /** One name's changes take its kind from one side to the other. */
  lemma ReplayName(m: map<string, Kind>, n: string, b: Option<Resource>, a: Option<Resource>)
    requires Holds(m, n, b)
    ensures Replay(m, NameChanges(n, b, a)) == Some(SetTo(m, n, a))
  {
    hide KindOrEmpty;
    var cs := NameChanges(n, b, a);
    if |cs| == 2 {
      assert cs[1..] == [cs[1]] && cs[1..][1..] == [];
      var bare := m - {n};
      assert bare[n := cs[1].kind] == m[n := cs[1].kind];
      assert Replay(bare[n := cs[1].kind], []) == Some(bare[n := cs[1].kind]);
      assert Replay(bare, [cs[1]]) == Some(bare[n := cs[1].kind]);
      assert Replay(m, cs) == Replay(bare, cs[1..]);
    } else if |cs| == 1 {
      assert cs[1..] == [];
      assert a.Some? && b.Some? ==> m[n := m[n]] == m;
    } else {
      assert SetTo(m, n, a) == m;
    }
  }

  /** The map after some names, taken from the front, have their new kinds. */
  ghost predicate Between(m: map<string, Kind>, names: seq<string>, before: Option<State>, after: Option<State>) {
    forall n :: Holds(m, n, if n in names then Lookup(before, n) else Lookup(after, n))
  }

  lemma {:induction false} ReplayOver(m: map<string, Kind>, names: seq<string>, before: Option<State>, after: Option<State>)
    requires Ascending(names) && ChangesOver(names, before, after).Ok? && Between(m, names, before, after)
    ensures var r := Replay(m, ChangesOver(names, before, after).value);
            r.Some? && Between(r.value, [], before, after)
    decreases |names|
  {
    hide Order.Leq, KindOrEmpty, Lookup, NameChanges, Judgeable, Replay;
    if names == [] {
      ReplayNothing(m);
    } else {
      var n, rest := names[0], names[1..];
      var b, a := Lookup(before, n), Lookup(after, n);
      var more := ChangesOver(rest, before, after).value;
      assert Holds(m, n, b);
      ReplayName(m, n, b, a);
      ReplayAppend(m, NameChanges(n, b, a), more);
      assert n !in rest && forall k :: k in names <==> k == n || k in rest;
      forall k ensures Holds(SetTo(m, n, a), k, if k in rest then Lookup(before, k) else Lookup(after, k)) {
        assert Holds(m, k, if k in names then Lookup(before, k) else Lookup(after, k));
      }
      ReplayOver(SetTo(m, n, a), rest, before, after);
    }
  }

  lemma ReplayNothing(m: map<string, Kind>)
    ensures Replay(m, []) == Some(m)
  {}

  lemma KindsHold(s: Option<State>, n: string)
    ensures Holds(Kinds(s), n, Lookup(s, n))
  {
    hide KindOrEmpty;
  }

  lemma HoldsDecides(m: map<string, Kind>, s: Option<State>)
    requires forall n :: Holds(m, n, Lookup(s, n))
    ensures m == Kinds(s)
  {
    hide KindOrEmpty, Lookup;
    forall n ensures (n in m <==> n in Kinds(s)) && (n in m ==> m[n] == Kinds(s)[n]) {
      assert Holds(m, n, Lookup(s, n));
      KindsHold(s, n);
    }
  }

  lemma ReplayComposite(m: map<string, Kind>, before: Option<State>, after: Option<State>, given: Option<Kind>)
    ensures Replay(m, CompositeChanges(before, after, given)) == Some(m)
  {
    hide CompositeKind;
    var cs := CompositeChanges(before, after, given);
    if cs != [] { assert cs[1..] == []; }
  }

  /** The changes are a correct patch: replayed over the request's kinds by
      name they give the response's. */
  lemma ChangesReplay(before: Option<State>, after: Option<State>, given: Option<Kind>, names: seq<string>)
    requires Lists(names, Keys(before) + Keys(after)) && ChangesOver(names, before, after).Ok?
    ensures Replay(Kinds(before), CompositeChanges(before, after, given) + ChangesOver(names, before, after).value) == Some(Kinds(after))
  {
    hide Kinds, Replay, KindOrEmpty, NameChanges, ChangesOver, CompositeChanges, Ascending;
    var m, cs := Kinds(before), ChangesOver(names, before, after).value;
    ReplayComposite(m, before, after, given);
    ReplayAppend(m, CompositeChanges(before, after, given), cs);
    forall n ensures Holds(m, n, if n in names then Lookup(before, n) else Lookup(after, n)) {
      KindsHold(before, n);
    }
    ReplayOver(m, names, before, after);
    var end := Replay(m, cs).value;
    forall n ensures Holds(end, n, Lookup(after, n)) {
      assert Holds(end, n, if n in [] then Lookup(before, n) else Lookup(after, n));
    }
    HoldsDecides(end, after);
  }

  // --------------------------------------------- what is, and is not, listed

  lemma NameChangesNamed(n: string, b: Option<Resource>, a: Option<Resource>)
    ensures NameChanges(n, b, a) == [] <==> b == a
    ensures forall c :: c in NameChanges(n, b, a) ==> c.name == n && !c.composite
  {}

  /** The changes of one name, within the list. */
  lemma {:induction false} ListedFor(names: seq<string>, before: Option<State>, after: Option<State>, c: Change)
    requires Ascending(names) && ChangesOver(names, before, after).Ok?
    ensures c in ChangesOver(names, before, after).value <==>
            c.name in names && c in NameChanges(c.name, Lookup(before, c.name), Lookup(after, c.name))
    decreases |names|
  {
    hide Order.Leq, NameChanges, Lookup, Judgeable;
    if names != [] {
      var n, rest := names[0], names[1..];
      ListedFor(rest, before, after, c);
      NameChangesNamed(n, Lookup(before, n), Lookup(after, n));
      NameChangesNamed(c.name, Lookup(before, c.name), Lookup(after, c.name));
      assert forall k :: k in names <==> k == n || k in rest;
    }
  }

  /** A name is mentioned exactly when its two sides differ by value, and the
      composite resource likewise: what goes unmentioned is equal, body and
      details, and an equal re-encoding mentions nothing. */
  lemma MentionedExactly(before: Option<State>, after: Option<State>, given: Option<Kind>, names: seq<string>, n: string)
    requires Lists(names, Keys(before) + Keys(after)) && ChangesOver(names, before, after).Ok?
    ensures (exists c :: c in ChangesOver(names, before, after).value && c.name == n) <==> Lookup(before, n) != Lookup(after, n)
    ensures CompositeChanges(before, after, given) != [] <==> Composite(before) != Composite(after)
  {
    hide Order.Leq, Ascending, NameChanges, Judgeable, CompositeKind, ChangesOver, KindOf;
    var b, a := Lookup(before, n), Lookup(after, n);
    var cs := NameChanges(n, b, a);
    NameChangesNamed(n, b, a);
    forall c ensures c in ChangesOver(names, before, after).value && c.name == n ==> c in cs {
      ListedFor(names, before, after, c);
    }
    if b != a {
      ListedFor(names, before, after, cs[0]);
      assert cs[0] in cs;
    }
  }

  /** Names come sorted, and a name is listed twice only for a kind swap: the
      remove of the old kind, then at once the add of the new one. */
  lemma {:induction false} ListedInOrder(names: seq<string>, before: Option<State>, after: Option<State>, i: nat, j: nat)
    requires Ascending(names) && ChangesOver(names, before, after).Ok?
    requires i < j < |ChangesOver(names, before, after).value|
    ensures var cs := ChangesOver(names, before, after).value;
            && !cs[i].composite && Order.Leq(cs[i].name, cs[j].name)
            && (cs[i].name == cs[j].name ==>
                  j == i + 1 && cs[i].change == Remove && cs[j].change == Add && cs[i].kind != cs[j].kind)
    decreases |names|
  {
    hide Order.Leq, Lookup, Judgeable, NameChanges;
    var n, rest := names[0], names[1..];
    var own, more := NameChanges(n, Lookup(before, n), Lookup(after, n)), ChangesOver(rest, before, after).value;
    if i >= |own| {
      ListedInOrder(rest, before, after, i - |own|, j - |own|);
    } else if j >= |own| {
      OwnThenLater(names, before, after, own[i], more[j - |own|]);
    } else {
      Swap(n, Lookup(before, n), Lookup(after, n), i, j);
    }
  }

  lemma Swap(n: string, b: Option<Resource>, a: Option<Resource>, i: nat, j: nat)
    requires i < j < |NameChanges(n, b, a)|
    ensures var cs := NameChanges(n, b, a);
            && cs[i].name == n == cs[j].name && Order.Leq(n, n) && !cs[i].composite
            && j == i + 1 && cs[i].change == Remove && cs[j].change == Add && cs[i].kind != cs[j].kind
  {
    hide Order.Leq, KindOrEmpty;
    Order.LeqTotal(n, n);
  }

  lemma OwnThenLater(names: seq<string>, before: Option<State>, after: Option<State>, c: Change, d: Change)
    requires Ascending(names) && names != [] && ChangesOver(names[1..], before, after).Ok?
    requires c in NameChanges(names[0], Lookup(before, names[0]), Lookup(after, names[0]))
    requires d in ChangesOver(names[1..], before, after).value
    ensures !c.composite && Order.Leq(c.name, d.name) && c.name != d.name
  {
    hide Order.Leq, NameChanges, Lookup, ChangesOver;
    NameChangesNamed(names[0], Lookup(before, names[0]), Lookup(after, names[0]));
    ListedFor(names[1..], before, after, d);
    var k :| 0 <= k < |names[1..]| && names[1..][k] == d.name;
    assert names[k + 1] == d.name;
  }

  // -------------------------------------------------------------- the fence

  /** A layer's part: whether any of its rules scopes composeResource, and
      whether it permits a change. */
  datatype Layer = Layer(scopes: bool, permits: Change -> bool)

  predicate Admits(layer: Option<Layer>, c: Change) {
    layer.Some? && layer.value.scopes ==> layer.value.permits(c)
  }

  datatype Refuser = Composition | Operator

  function RefusedBy(c: Change, operator: Option<Layer>, composition: Option<Layer>): Option<Refuser> {
    if !Admits(composition, c) then Some(Composition)
    else if !Admits(operator, c) then Some(Operator)
    else None
  }

  method AdmitCompose(changes: seq<Change>, operator: Option<Layer>, composition: Option<Layer>)
    returns (r: Result<(), (Change, Refuser)>)
    ensures r.Ok? <==> forall c :: c in changes ==> Admits(composition, c) && Admits(operator, c)
    ensures r.Err? && r.error.1 == Composition ==>
              composition.Some? && composition.value.scopes && !composition.value.permits(r.error.0)
    ensures r.Err? && r.error.1 == Operator ==>
              && operator.Some? && operator.value.scopes && !operator.value.permits(r.error.0)
              && (composition.Some? && composition.value.scopes ==> composition.value.permits(r.error.0))
    ensures r.Err? ==>
              exists i :: 0 <= i < |changes| && changes[i] == r.error.0 && RefusedBy(changes[i], operator, composition) == Some(r.error.1)
                          && forall c :: c in changes[..i] ==> Admits(composition, c) && Admits(operator, c)
  {
    for i := 0 to |changes|
      invariant forall c :: c in changes[..i] ==> Admits(composition, c) && Admits(operator, c)
    {
      var refused := RefusedBy(changes[i], operator, composition);
      if refused.Some? { return Err((changes[i], refused.value)); }
      assert changes[..i + 1] == changes[..i] + [changes[i]];
    }
    assert changes[..|changes|] == changes;
    r := Ok(());
  }

  /** What a layer must permit for one name that differs. */
  predicate Permitted(layer: Option<Layer>, n: string, b: Option<Resource>, a: Option<Resource>) {
    && (b.Some? && (a.None? || KindOrEmpty(b.value) != KindOrEmpty(a.value)) ==>
          Admits(layer, Change(KindOrEmpty(b.value), Remove, n, false)))
    && (a.Some? && (b.None? || KindOrEmpty(b.value) != KindOrEmpty(a.value)) ==>
          Admits(layer, Change(KindOrEmpty(a.value), Add, n, false)))
    && (a.Some? && b.Some? && KindOrEmpty(b.value) == KindOrEmpty(a.value) && b != a ==>
          Admits(layer, Change(KindOrEmpty(a.value), Modify, n, false)))
  }

  lemma PermittedName(layer: Option<Layer>, n: string, b: Option<Resource>, a: Option<Resource>)
    ensures (forall c :: c in NameChanges(n, b, a) ==> Admits(layer, c)) <==> Permitted(layer, n, b, a)
  {
    hide KindOrEmpty, Admits;
    var cs := NameChanges(n, b, a);
    assert forall c :: c in cs <==> (exists i :: 0 <= i < |cs| && cs[i] == c);
    if |cs| == 2 { assert cs[0] in cs && cs[1] in cs; } else if |cs| == 1 { assert cs[0] in cs; }
  }

  lemma ComposedFence(before: Option<State>, after: Option<State>, names: seq<string>, layer: Option<Layer>)
    requires Lists(names, Keys(before) + Keys(after)) && ChangesOver(names, before, after).Ok?
    ensures (forall c :: c in ChangesOver(names, before, after).value ==> Admits(layer, c)) <==>
            (forall n :: Permitted(layer, n, Lookup(before, n), Lookup(after, n)))
  {
    hide Order.Leq, Ascending, NameChanges, ChangesOver, Admits, Permitted, KindOf;
    var cs := ChangesOver(names, before, after).value;
    forall n ensures n !in names ==> Permitted(layer, n, Lookup(before, n), Lookup(after, n)) { Untouched(layer, n); }
    forall n { PermittedName(layer, n, Lookup(before, n), Lookup(after, n)); }
    forall c ensures c in cs <==> c.name in names && c in NameChanges(c.name, Lookup(before, c.name), Lookup(after, c.name)) {
      ListedFor(names, before, after, c);
    }
    forall n, c | c in NameChanges(n, Lookup(before, n), Lookup(after, n)) ensures c.name == n {
      NameChangesNamed(n, Lookup(before, n), Lookup(after, n));
    }
  }

  /** What a layer must permit for the composite resource. */
  predicate CompositePermitted(layer: Option<Layer>, given: Option<Kind>, b: Option<Resource>, a: Option<Resource>) {
    b != a ==>
      var change := if b.None? then Add else if a.None? then Remove else Modify;
      Admits(layer, Change(CompositeKind(given, b, a), change, "", true))
  }

  lemma CompositeFence(before: Option<State>, after: Option<State>, given: Option<Kind>, layer: Option<Layer>)
    ensures (forall c :: c in CompositeChanges(before, after, given) ==> Admits(layer, c)) <==>
            CompositePermitted(layer, given, Composite(before), Composite(after))
  {
    hide Admits, CompositeKind;
    var cs := CompositeChanges(before, after, given);
    if cs != [] { assert cs[0] in cs; }
  }

  /** The fence over a response: a layer admits every change exactly when it
      permits what happened to the composite resource and to every name, a
      kind swap counting as a remove of the old kind and an add of the new. */
  lemma FenceIsExact(
    before: Option<State>, after: Option<State>, given: Option<Kind>, names: seq<string>, layer: Option<Layer>)
    requires Lists(names, Keys(before) + Keys(after)) && ChangesOver(names, before, after).Ok?
    ensures (forall c :: c in CompositeChanges(before, after, given) + ChangesOver(names, before, after).value ==> Admits(layer, c))
            <==>
            && CompositePermitted(layer, given, Composite(before), Composite(after))
            && (forall n :: Permitted(layer, n, Lookup(before, n), Lookup(after, n)))
  {
    hide *;
    ComposedFence(before, after, names, layer);
    CompositeFence(before, after, given, layer);
    var first, rest := CompositeChanges(before, after, given), ChangesOver(names, before, after).value;
    assert forall c :: c in first + rest <==> c in first || c in rest;
  }

  lemma Untouched(layer: Option<Layer>, n: string)
    ensures Permitted(layer, n, None, None)
  {}
}
