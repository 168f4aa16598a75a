/** Protobuf wire surgery: crates/function/src/protowire.rs.

    The byte loops are proved against a parse of the bytes into their sequence
    of fields. `Parse` and `Flatten` are inverse to each other (`ParseFlatten`,
    `FlattenParse`), so what a loop does to bytes can be stated as what it does
    to fields. */
module Wire {
  import opened Base

  type Byte = x: int | 0 <= x < 256

  const U64: nat := 0x1_0000_0000_0000_0000

  const META_FIELD: nat := 1
  const MAP_KEY_FIELD: nat := 1
  const REQUEST_DESIRED_FIELD: nat := 3
  const REQUEST_CONTEXT_FIELD: nat := 5
  const RESPONSE_DESIRED_FIELD: nat := 2
  const RESPONSE_CONTEXT_FIELD: nat := 4
  const CREDENTIALS_FIELD: nat := 7

  // --------------------------------------------------------------- varints

  function Pow128(k: nat): nat {
    if k == 0 then 1 else 128 * Pow128(k - 1)
  }

  /** `u64::from(b & 0x7f) << 7*k`: bits past the 64th are lost. */
  function Shifted(b: Byte, k: nat): nat {
    (b % 128) * Pow128(k) % U64
  }

  lemma DisjointOr(a: bv64, b: bv64)
    requires a & b == 0
    ensures a | b == a + b
  {}

  lemma ShiftDisjoint(value: bv64, group: bv64, shift: bv64)
    requires shift < 64 && value < (1 << shift)
    ensures value & (group << shift) == 0
  {}

  /** The groups read so far lie below the shift, so or-ing the next one in is
      adding it, as `VarintFrom` does. */
  lemma OrIsAdd(value: bv64, group: bv64, shift: bv64)
    requires shift < 64 && value < (1 << shift)
    ensures value | (group << shift) == value + (group << shift)
  {
    ShiftDisjoint(value, group, shift);
    DisjointOr(value, group << shift);
  }

  /** Value and length of the varint s starts with, k groups in. */
  function VarintFrom(s: seq<Byte>, k: nat): Option<(nat, nat)>
    requires k <= 9
    decreases |s|
  {
    if s == [] then None
    else if s[0] < 128 then Some((Shifted(s[0], k), 1))
    else if k == 9 then None
    else
      match VarintFrom(s[1..], k + 1)
      case None => None
      case Some((v, n)) => Some((Shifted(s[0], k) + v, n + 1))
  }

  function Varint(s: seq<Byte>): Option<(nat, nat)> {
    VarintFrom(s, 0)
  }

  method ReadVarint(raw: seq<Byte>, at: nat) returns (r: Option<(nat, nat)>)
    requires at <= |raw|
    ensures r == Varint(raw[at..])
  {
    var i, value, k := at, 0, 0;
    while true
      invariant at <= i <= |raw| && k == i - at <= 9
      invariant Varint(raw[at..]) ==
                match VarintFrom(raw[i..], k) case None => None case Some((v, n)) => Some((value + v, n + k))
      decreases |raw| - i
    {
      if i == |raw| { return None; }
      var b := raw[i];
      assert raw[i..][1..] == raw[i + 1..];
      i := i + 1;
      if b < 128 { return Some((value + Shifted(b, k), i - at)); }
      if k == 9 { return None; }
      value := value + Shifted(b, k);
      k := k + 1;
    }
  }

  function PushVarint(v: nat): seq<Byte> {
    if v < 128 then [v] else [v % 128 + 128] + PushVarint(v / 128)
  }

  method WriteVarint(out: seq<Byte>, v: nat) returns (r: seq<Byte>)
    ensures r == out + PushVarint(v)
  {
    r := out;
    var x := v;
    while x >= 128
      invariant r + PushVarint(x) == out + PushVarint(v)
    {
      r := r + [x % 128 + 128];
      x := x / 128;
    }
    r := r + [x];
  }

  lemma SplitGroup(v: nat, p: nat)
    ensures v * p == (v / 128) * (128 * p) + (v % 128) * p
    ensures v % 128 * p <= v * p && (v / 128) * (128 * p) <= v * p
  {
    var lo, hi := v % 128, v / 128;
    assert v == hi * 128 + lo;
    assert (hi * 128 + lo) * p == hi * 128 * p + lo * p;
    assert hi * (128 * p) == hi * 128 * p;
    assert 0 <= lo * p && 0 <= hi * 128 * p;
  }

  lemma TopGroup(v: nat)
    requires v * Pow128(9) < U64
    ensures v < 2
  {
    PowNine();
  }

  lemma PowNext(k: nat)
    ensures Pow128(k + 1) == 128 * Pow128(k) && Pow128(0) == 1
  {}

  lemma ShiftedSmall(b: Byte, k: nat)
    requires (b % 128) * Pow128(k) < U64
    ensures Shifted(b, k) == (b % 128) * Pow128(k)
  {}

  lemma {:induction false} PushedFrom(v: nat, k: nat, rest: seq<Byte>)
    requires k <= 9 && v * Pow128(k) < U64
    ensures VarintFrom(PushVarint(v) + rest, k) == Some((v * Pow128(k), |PushVarint(v)|))
    ensures 1 <= |PushVarint(v)| <= 10 - k
    decreases v
  {
    hide Pow128, Shifted;
    var s := PushVarint(v) + rest;
    SplitGroup(v, Pow128(k));
    PowNext(k);
    if k == 9 { TopGroup(v); }
    if v >= 128 {
      PushedFrom(v / 128, k + 1, rest);
      assert s[1..] == PushVarint(v / 128) + rest;
    }
    assert s[0] % 128 == v % 128;
    ShiftedSmall(s[0], k);
  }

  /** Every u64 reads back from its encoding, whatever follows it, from at most
      ten bytes. */
  lemma VarintRoundTrip(v: nat, rest: seq<Byte>)
    requires v < U64
    ensures Varint(PushVarint(v) + rest) == Some((v, |PushVarint(v)|))
    ensures 1 <= |PushVarint(v)| <= 10
  {
    PushedFrom(v, 0, rest);
  }

  /** A varint is read from its own bytes alone. */
  lemma {:induction false} VarintLocal(s: seq<Byte>, k: nat, t: seq<Byte>)
    requires k <= 9 && VarintFrom(s, k).Some?
    ensures var n := VarintFrom(s, k).value.1;
            1 <= n <= |s| && n <= 10 - k && (s[..n] <= t ==> VarintFrom(t, k) == VarintFrom(s, k))
    decreases |s|
  {
    var n := VarintFrom(s, k).value.1;
    if s[0] >= 128 {
      VarintLocal(s[1..], k + 1, if t == [] then [] else t[1..]);
      if s[..n] <= t {
        assert t[0] == s[0];
        assert s[1..][..n - 1] == s[..n][1..] <= t[1..];
      }
    } else if s[..n] <= t {
      assert t[0] == s[..n][0];
    }
  }

  // ---------------------------------------------------------------- fields

  /** One field as it stands on the wire: raw holds tagLen bytes of tag and then
      the value; payload is a length-delimited value without its length. */
  datatype Field = Field(num: nat, wire: nat, tagLen: nat, raw: seq<Byte>, payload: seq<Byte>)

  /** The length of a value of the given wire type at the head of s. */
  function ValueLen(s: seq<Byte>, wire: nat): Option<nat> {
    match wire
    case 0 => (match Varint(s) case Some((_, n)) => Some(n) case None => None)
    case 1 => if 8 <= |s| then Some(8) else None
    case 2 => (match Varint(s)
               case Some((len, n)) => if n + len <= |s| then Some(n + len) else None
               case None => None)
    case 5 => if 4 <= |s| then Some(4) else None
    case _ => None
  }

  method SkipValue(raw: seq<Byte>, i: nat, wire: nat) returns (end: Option<nat>)
    requires i <= |raw|
    ensures end == (match ValueLen(raw[i..], wire) case Some(n) => Some(i + n) case None => None)
  {
    match wire {
      case 0 =>
        var v := ReadVarint(raw, i);
        end := if v.Some? then Some(i + v.value.1) else None;
      case 1 => end := if i + 8 <= |raw| then Some(i + 8) else None;
      case 2 =>
        var v := ReadVarint(raw, i);
        if v.None? { return None; }
        var stop := i + v.value.1 + v.value.0;
        end := if stop <= |raw| then Some(stop) else None;
      case 5 => end := if i + 4 <= |raw| then Some(i + 4) else None;
      case _ => end := None;
    }
  }

  /** What a length prefix at the head of s delimits; nothing for other types. */
  function Body(s: seq<Byte>, wire: nat, len: nat): seq<Byte> {
    var n := Varint(s);
    if wire == 2 && n.Some? && n.value.1 <= len <= |s| then s[n.value.1..len] else []
  }

  function ParseField(s: seq<Byte>): (r: Option<Field>)
    ensures r.Some? ==> 0 < r.value.tagLen <= |r.value.raw| <= |s| && r.value.raw == s[..|r.value.raw|]
  {
    match Varint(s)
    case None => None
    case Some((tag, n)) =>
      VarintLocal(s, 0, s);
      match ValueLen(s[n..], tag % 8)
      case None => None
      case Some(len) =>
        ValueLocal(s[n..], tag % 8, s[n..]);
        Some(Field(tag / 8, tag % 8, n, s[..n + len], Body(s[n..], tag % 8, len)))
  }

  /** The fields s is made of, or None when it does not parse. */
  function Parse(s: seq<Byte>): Option<seq<Field>>
    decreases |s|
  {
    if s == [] then Some([])
    else
      match ParseField(s)
      case None => None
      case Some(f) =>
        match Parse(s[|f.raw|..])
        case None => None
        case Some(fs) => Some([f] + fs)
  }

  function Flatten(fs: seq<Field>): seq<Byte> {
    if fs == [] then [] else fs[0].raw + Flatten(fs[1..])
  }

  lemma ValueLocal(s: seq<Byte>, wire: nat, t: seq<Byte>)
    requires ValueLen(s, wire).Some?
    ensures var n := ValueLen(s, wire).value;
            n <= |s| && (s[..n] <= t ==> ValueLen(t, wire) == ValueLen(s, wire))
  {
    var n := ValueLen(s, wire).value;
    if wire == 0 || wire == 2 {
      VarintLocal(s, 0, t);
      var m := Varint(s).value.1;
      if s[..n] <= t { assert s[..m] == s[..n][..m] <= t; }
    }
  }

  lemma BodyLocal(s: seq<Byte>, wire: nat, t: seq<Byte>)
    requires ValueLen(s, wire).Some?
    ensures var n := ValueLen(s, wire).value;
            n <= |s| && (s[..n] <= t ==> Body(t, wire, n) == Body(s, wire, n))
  {
    var n := ValueLen(s, wire).value;
    ValueLocal(s, wire, t);
    if wire == 2 && s[..n] <= t {
      VarintLocal(s, 0, t);
      var m := Varint(s).value.1;
      assert s[..m] == s[..n][..m] <= t;
      assert s[m..n] == s[..n][m..] == t[..n][m..] == t[m..n];
    }
  }

  lemma FieldLocal(s: seq<Byte>, t: seq<Byte>)
    requires ParseField(s).Some? && ParseField(s).value.raw <= t
    ensures ParseField(t) == ParseField(s)
  {
    var f := ParseField(s).value;
    var (tag, n) := Varint(s).value;
    VarintLocal(s, 0, t);
    assert s[..n] == f.raw[..n] <= t;
    var len := |f.raw| - n;
    assert s[n..][..len] == f.raw[n..] <= t[n..];
    ValueLocal(s[n..], tag % 8, t[n..]);
    BodyLocal(s[n..], tag % 8, t[n..]);
    assert t[..n + len] == f.raw;
  }

  /** A field that reads back as itself from its own bytes. */
  predicate Good(f: Field) {
    ParseField(f.raw) == Some(f)
  }

  lemma {:induction false} FlattenParse(s: seq<Byte>)
    requires Parse(s).Some?
    ensures Flatten(Parse(s).value) == s
    ensures forall f :: f in Parse(s).value ==> Good(f)
    decreases |s|
  {
    hide ParseField;
    if s != [] {
      var f := ParseField(s).value;
      FieldLocal(s, f.raw);
      FlattenParse(s[|f.raw|..]);
      assert Parse(s).value[1..] == Parse(s[|f.raw|..]).value;
    }
  }

  lemma {:induction false} ParseFlatten(fs: seq<Field>)
    requires forall f :: f in fs ==> Good(f)
    ensures Parse(Flatten(fs)) == Some(fs)
  {
    hide ParseField;
    if fs != [] {
      ParseFlatten(fs[1..]);
      var s := Flatten(fs);
      var f := fs[0];
      assert Good(f) && f.raw <= s;
      FieldLocal(f.raw, s);
      assert s[|f.raw|..] == Flatten(fs[1..]);
      assert [f] + fs[1..] == fs;
    }
  }

  lemma {:induction false} FlattenAppend(fs: seq<Field>, gs: seq<Field>)
    ensures Flatten(fs + gs) == Flatten(fs) + Flatten(gs)
  {
    if fs == [] {
      assert fs + gs == gs;
    } else {
      assert (fs + gs)[1..] == fs[1..] + gs;
      FlattenAppend(fs[1..], gs);
    }
  }

  /** Reading on: raw[i..] starts with a field, and the rest follows it. */
  lemma ParseStep(raw: seq<Byte>, i: nat)
    requires i < |raw|
    ensures match ParseField(raw[i..])
            case None => Parse(raw[i..]) == None
            case Some(f) =>
              && i + |f.raw| <= |raw| && raw[i..i + |f.raw|] == f.raw && 0 < f.tagLen <= |f.raw|
              && Parse(raw[i..]) == (match Parse(raw[i + |f.raw|..]) case None => None case Some(fs) => Some([f] + fs))
  {
    if ParseField(raw[i..]).Some? {
      var f := ParseField(raw[i..]).value;
      assert raw[i..][|f.raw|..] == raw[i + |f.raw|..];
    }
  }

  lemma FieldParts(s: seq<Byte>)
    requires ParseField(s).Some?
    ensures var f := ParseField(s).value;
            && Varint(s) == Some((f.num * 8 + f.wire, f.tagLen)) && f.wire < 8
            && 0 < f.tagLen <= |f.raw| <= |s|
            && ValueLen(s[f.tagLen..], f.wire) == Some(|f.raw| - f.tagLen)
            && f.payload == Body(s[f.tagLen..], f.wire, |f.raw| - f.tagLen)
  {
    var (tag, n) := Varint(s).value;
    ValueLocal(s[n..], tag % 8, s[n..]);
  }

  lemma BodyParts(v: seq<Byte>)
    requires ValueLen(v, 2).Some?
    ensures var len := ValueLen(v, 2).value;
            && Varint(v).Some? && Varint(v).value.1 <= len <= |v|
            && Body(v, 2, len) == v[Varint(v).value.1..len]
  {
    VarintLocal(v, 0, v);
  }

  lemma PayloadAt(raw: seq<Byte>, i: nat)
    requires i < |raw| && ParseField(raw[i..]).Some? && ParseField(raw[i..]).value.wire == 2
    ensures var f := ParseField(raw[i..]).value;
            && i + f.tagLen <= |raw| && Varint(raw[i + f.tagLen..]).Some?
            && var start := i + f.tagLen + Varint(raw[i + f.tagLen..]).value.1;
               start <= i + |f.raw| <= |raw| && raw[start..i + |f.raw|] == f.payload
  {
    hide *;
    var s := raw[i..];
    FieldParts(s);
    var f := ParseField(s).value;
    var v := raw[i + f.tagLen..];
    assert s[f.tagLen..] == v;
    BodyParts(v);
    var n, len := Varint(v).value.1, |f.raw| - f.tagLen;
    assert v[n..len] == raw[i + f.tagLen + n..i + f.tagLen + len];
  }

  // --------------------------------------------- withholding the credentials

  type Utf8 = seq<Byte> -> bool

  type Forward = seq<Byte> -> bool

  predicate IsKey(f: Field) {
    f.num == MAP_KEY_FIELD && f.wire == 2
  }

  /** The key `map_entry_key` settles on over the fields of an entry: the last
      one - and no answer at all once one of them is not a string. */
  function KeyOver(fs: seq<Field>, utf8: Utf8): Option<Option<seq<Byte>>> {
    if fs == [] then Some(None)
    else
      var f, before := fs[|fs| - 1], KeyOver(fs[..|fs| - 1], utf8);
      if before.None? || !IsKey(f) then before
      else if utf8(f.payload) then Some(Some(f.payload))
      else None
  }

  function EntryKey(entry: seq<Byte>, utf8: Utf8): Option<seq<Byte>> {
    match Parse(entry)
    case None => None
    case Some(fs) => match KeyOver(fs, utf8) case Some(key) => key case None => None
  }

  /** `done` has been read and raw[i..] has not. */
  ghost predicate Progress(raw: seq<Byte>, i: nat, done: seq<Field>) {
    i <= |raw| && Parse(raw) == (match Parse(raw[i..]) case None => None case Some(fs) => Some(done + fs))
  }

  lemma ProgressStart(raw: seq<Byte>)
    ensures Progress(raw, 0, [])
  {
    assert raw[0..] == raw && forall fs: seq<Field> :: [] + fs == fs;
  }

  lemma ProgressStep(raw: seq<Byte>, i: nat, done: seq<Field>)
    requires Progress(raw, i, done) && i < |raw|
    ensures match ParseField(raw[i..])
            case None => Parse(raw) == None
            case Some(f) => 0 < f.tagLen <= |f.raw| && i + |f.raw| <= |raw| && raw[i..i + |f.raw|] == f.raw
                            && Progress(raw, i + |f.raw|, done + [f])
  {
    hide ParseField;
    ParseStep(raw, i);
    assert forall f, rest: seq<Field> :: (done + [f]) + rest == done + ([f] + rest);
  }

  lemma ProgressEnd(raw: seq<Byte>, done: seq<Field>)
    requires Progress(raw, |raw|, done)
    ensures Parse(raw) == Some(done)
  {
    assert raw[|raw|..] == [] && done + [] == done;
  }

  /** Where a field's value lies in the bytes. */
  datatype Spot = Spot(num: nat, wire: nat, start: nat, end: nat)

  method ReadSpot(raw: seq<Byte>, i: nat) returns (r: Option<Spot>)
    requires i < |raw|
    ensures match ParseField(raw[i..])
            case None => r == None
            case Some(f) => r == Some(Spot(f.num, f.wire, i + f.tagLen, i + |f.raw|))
  {
    var t := ReadVarint(raw, i);
    if t.None? { return None; }
    var (tag, n) := t.value;
    VarintLocal(raw[i..], 0, raw[i..]);
    assert raw[i..][n..] == raw[i + n..];
    var end := SkipValue(raw, i + n, tag % 8);
    if end.None? { return None; }
    ValueLocal(raw[i + n..], tag % 8, raw[i + n..]);
    r := Some(Spot(tag / 8, tag % 8, i + n, end.value));
  }

  /** The read of one field, as the three loops share it: tag, then skip. */
  method ReadField(raw: seq<Byte>, i: nat, ghost done: seq<Field>) returns (r: Option<Spot>, ghost f: Field)
    requires i < |raw| && Progress(raw, i, done)
    ensures r.None? ==> ParseField(raw[i..]) == None && Parse(raw) == None
    ensures r.Some? ==>
              var p := r.value;
              && i < p.start <= p.end <= |raw| && p.num == f.num && p.wire == f.wire
              && ParseField(raw[i..]) == Some(f) && p.start == i + f.tagLen
              && raw[i..p.end] == f.raw && Progress(raw, p.end, done + [f])
  {
    hide *;
    r := ReadSpot(raw, i);
    f := if r.Some? then ParseField(raw[i..]).value else Field(0, 0, 0, [], []);
    ProgressStep(raw, i, done);
  }

  /** The bytes behind a length prefix: `let (_, n) = varint(raw, i)?` and the
      slice from there to the value's end. */
  method ReadPayload(raw: seq<Byte>, ghost i: nat, start: nat, end: nat, ghost f: Field) returns (bytes: seq<Byte>)
    requires i < |raw| && ParseField(raw[i..]) == Some(f) && f.wire == 2
    requires start == i + f.tagLen && end == i + |f.raw|
    ensures bytes == f.payload
  {
    PayloadAt(raw, i);
    var n := ReadVarint(raw, start);
    bytes := raw[start + n.value.1..end];
  }

  method MapEntryKey(entry: seq<Byte>, utf8: Utf8) returns (r: Option<seq<Byte>>)
    ensures r == EntryKey(entry, utf8)
  {
    hide *;
    var key: Option<seq<Byte>>, i := None, 0;
    ghost var done: seq<Field> := [];
    ProgressStart(entry);
    EntryKeyOver(entry, done, utf8);
    while i < |entry|
      invariant i <= |entry| && Progress(entry, i, done) && KeyOver(done, utf8) == Some(key)
      decreases |entry| - i
    {
      ghost var f;
      var next;
      next, f := ReadField(entry, i, done);
      if next.None? { return None; }
      var p := next.value;
      KeyOverAppend(done, f, utf8);
      if p.num == MAP_KEY_FIELD && p.wire == 2 {
        var bytes := ReadPayload(entry, i, p.start, p.end, f);
        if !utf8(bytes) {
          KeyOverStuck(entry, p.end, done + [f], utf8);
          return None;
        }
        key := Some(bytes);
      }
      done := done + [f];
      i := p.end;
    }
    ProgressEnd(entry, done);
    EntryKeyOver(entry, done, utf8);
    r := key;
  }

  lemma EntryKeyOver(entry: seq<Byte>, fs: seq<Field>, utf8: Utf8)
    ensures KeyOver([], utf8) == Some(None)
    ensures Parse(entry) == None ==> EntryKey(entry, utf8) == None
    ensures Parse(entry) == Some(fs) && KeyOver(fs, utf8).Some? ==> EntryKey(entry, utf8) == KeyOver(fs, utf8).value
  {}

  lemma KeyOverAppend(fs: seq<Field>, f: Field, utf8: Utf8)
    requires KeyOver(fs, utf8).Some?
    ensures KeyOver(fs + [f], utf8)
            == if !(f.num == MAP_KEY_FIELD && f.wire == 2) then KeyOver(fs, utf8)
               else if utf8(f.payload) then Some(Some(f.payload)) else None
  {
    assert (fs + [f])[..|fs|] == fs;
  }

  lemma {:induction false} KeyOverMonotone(fs: seq<Field>, gs: seq<Field>, utf8: Utf8)
    requires KeyOver(fs, utf8).None?
    ensures KeyOver(fs + gs, utf8).None?
    decreases |gs|
  {
    if gs == [] {
      assert fs + gs == fs;
    } else {
      assert (fs + gs)[..|fs + gs| - 1] == fs + gs[..|gs| - 1];
      KeyOverMonotone(fs, gs[..|gs| - 1], utf8);
    }
  }

  lemma KeyOverStuck(entry: seq<Byte>, i: nat, done: seq<Field>, utf8: Utf8)
    requires Progress(entry, i, done) && KeyOver(done, utf8).None?
    ensures EntryKey(entry, utf8) == None
  {
    if Parse(entry).Some? { KeyOverMonotone(done, Parse(entry[i..]).value, utf8); }
  }

  /** Whether a field stays in the request. */
  predicate Keeps(f: Field, forward: Forward, utf8: Utf8) {
    f.num == CREDENTIALS_FIELD ==>
      f.wire == 2 && var key := EntryKey(f.payload, utf8); key.Some? && forward(key.value)
  }

  function Kept(fs: seq<Field>, forward: Forward, utf8: Utf8): (r: seq<Field>)
    ensures forall f :: f in r <==> f in fs && Keeps(f, forward, utf8)
  {
    if fs == [] then []
    else
      (if Keeps(fs[0], forward, utf8) then [fs[0]] else []) + Kept(fs[1..], forward, utf8)
  }

  lemma {:induction false} KeptAppend(fs: seq<Field>, f: Field, forward: Forward, utf8: Utf8)
    ensures Kept(fs + [f], forward, utf8)
            == Kept(fs, forward, utf8) + (if Keeps(f, forward, utf8) then [f] else [])
  {
    if fs == [] {
      assert [] + [f] == [f] && [f][1..] == [];
    } else {
      assert (fs + [f])[1..] == fs[1..] + [f];
      KeptAppend(fs[1..], f, forward, utf8);
    }
  }

  function Retained(raw: seq<Byte>, forward: Forward, utf8: Utf8): Option<seq<Byte>> {
    match Parse(raw)
    case None => None
    case Some(fs) => Some(Flatten(Kept(fs, forward, utf8)))
  }

  method RetainCredentials(raw: seq<Byte>, forward: Forward, utf8: Utf8) returns (r: Option<seq<Byte>>)
    ensures r == Retained(raw, forward, utf8)
  {
    hide *;
    var out, i := [], 0;
    ghost var done: seq<Field> := [];
    ProgressStart(raw);
    RetainedOf(raw, done, forward, utf8);
    while i < |raw|
      invariant i <= |raw| && Progress(raw, i, done) && out == Flatten(Kept(done, forward, utf8))
      decreases |raw| - i
    {
      var start := i;
      ghost var f;
      var next;
      next, f := ReadField(raw, i, done);
      if next.None? { return None; }
      var p := next.value;
      KeptFlatten(done, f, forward, utf8);
      KeepsWhen(f, forward, utf8);
      done := done + [f];
      i := p.end;
      if p.num == CREDENTIALS_FIELD {
        var forwarded := false;
        if p.wire == 2 {
          var entry := ReadPayload(raw, start, p.start, p.end, f);
          var key := MapEntryKey(entry, utf8);
          forwarded := key.Some? && forward(key.value);
        }
        if !forwarded { continue; }
      }
      out := out + raw[start..p.end];
    }
    ProgressEnd(raw, done);
    RetainedOf(raw, done, forward, utf8);
    r := Some(out);
  }

  lemma RetainedOf(raw: seq<Byte>, fs: seq<Field>, forward: Forward, utf8: Utf8)
    ensures Flatten(Kept([], forward, utf8)) == []
    ensures Parse(raw) == None ==> Retained(raw, forward, utf8) == None
    ensures Parse(raw) == Some(fs) ==> Retained(raw, forward, utf8) == Some(Flatten(Kept(fs, forward, utf8)))
  {}

  lemma KeepsWhen(f: Field, forward: Forward, utf8: Utf8)
    ensures Keeps(f, forward, utf8)
            <==> (f.num == CREDENTIALS_FIELD ==>
                    f.wire == 2 && EntryKey(f.payload, utf8).Some? && forward(EntryKey(f.payload, utf8).value))
  {}

  lemma FlattenOne(f: Field)
    ensures Flatten([f]) == f.raw && Flatten([]) == []
  {
    assert [f][1..] == [];
  }

  lemma KeptFlatten(fs: seq<Field>, f: Field, forward: Forward, utf8: Utf8)
    ensures Flatten(Kept(fs + [f], forward, utf8))
            == Flatten(Kept(fs, forward, utf8)) + (if Keeps(f, forward, utf8) then f.raw else [])
  {
    hide *;
    KeptAppend(fs, f, forward, utf8);
    var kept := Kept(fs, forward, utf8);
    if Keeps(f, forward, utf8) {
      FlattenAppend(kept, [f]);
      FlattenOne(f);
    } else {
      assert kept + [] == kept;
    }
  }

  /** Withholding is a filter on the field sequence: it fails exactly on bytes
      that do not parse, and what it returns parses to the input's fields
      without the withheld ones, each kept field's bytes untouched. */
  lemma RetainIsAFilter(raw: seq<Byte>, forward: Forward, utf8: Utf8)
    ensures Retained(raw, forward, utf8).Some? <==> Parse(raw).Some?
    ensures Parse(raw).Some? ==>
              && Flatten(Parse(raw).value) == raw
              && Parse(Retained(raw, forward, utf8).value) == Some(Kept(Parse(raw).value, forward, utf8))
  {
    if Parse(raw).Some? {
      FlattenParse(raw);
      ParseFlatten(Kept(Parse(raw).value, forward, utf8));
    }
  }

  lemma {:induction false} KeptTwice(fs: seq<Field>, p: Forward, q: Forward, utf8: Utf8)
    ensures Kept(Kept(fs, p, utf8), q, utf8) == Kept(fs, k => p(k) && q(k), utf8)
  {
    if fs != [] {
      KeptTwice(fs[1..], p, q, utf8);
      var rest := Kept(fs[1..], p, utf8);
      if Keeps(fs[0], p, utf8) {
        assert ([fs[0]] + rest)[1..] == rest;
      } else {
        assert [] + rest == rest;
      }
    }
  }

  /** Two filters compose as their conjunction; so withholding is idempotent. */
  lemma RetainComposes(raw: seq<Byte>, p: Forward, q: Forward, utf8: Utf8)
    requires Parse(raw).Some?
    ensures Retained(Retained(raw, p, utf8).value, q, utf8) == Retained(raw, k => p(k) && q(k), utf8)
    ensures Retained(Retained(raw, p, utf8).value, p, utf8) == Retained(raw, p, utf8)
  {
    RetainIsAFilter(raw, p, utf8);
    var fs := Parse(raw).value;
    KeptTwice(fs, p, q, utf8);
    KeptTwice(fs, p, p, utf8);
    KeptSame(fs, k => p(k) && p(k), p, utf8);
  }

  lemma {:induction false} KeptSame(fs: seq<Field>, p: Forward, q: Forward, utf8: Utf8)
    requires forall k :: p(k) == q(k)
    ensures Kept(fs, p, utf8) == Kept(fs, q, utf8)
  {
    if fs != [] { KeptSame(fs[1..], p, q, utf8); }
  }

  // -------------------------------------------- what the guest then decodes

  /** A decoder's reading of an entry's key: the last one, empty by default. */
  function DecodedKey(fs: seq<Field>): seq<Byte> {
    if fs == [] then []
    else if IsKey(fs[|fs| - 1]) then fs[|fs| - 1].payload
    else DecodedKey(fs[..|fs| - 1])
  }

  predicate StatesKey(fs: seq<Field>) {
    exists f :: f in fs && IsKey(f)
  }

  /** The credentials map a last-value-wins decoder builds. */
  function Credentials(fs: seq<Field>): map<seq<Byte>, seq<Byte>> {
    if fs == [] then map[]
    else
      var f, before := fs[|fs| - 1], Credentials(fs[..|fs| - 1]);
      if f.num == CREDENTIALS_FIELD && f.wire == 2 && Parse(f.payload).Some?
      then before[DecodedKey(Parse(f.payload).value) := f.payload]
      else before
  }

  /** The hypothesis made of a request that a typed decode accepts: its
      credentials are parseable entries whose keys are strings. */
  predicate Decodable(fs: seq<Field>, utf8: Utf8) {
    forall f :: f in fs && f.num == CREDENTIALS_FIELD ==>
      && f.wire == 2
      && Parse(f.payload).Some?
      && forall g :: g in Parse(f.payload).value && IsKey(g) ==> utf8(g.payload)
  }

  lemma {:induction false} JudgedKeyIsDecoded(fs: seq<Field>, utf8: Utf8)
    ensures KeyOver(fs, utf8).Some? && KeyOver(fs, utf8).value.Some? ==>
              KeyOver(fs, utf8).value.value == DecodedKey(fs) && StatesKey(fs)
    ensures (forall f :: f in fs && IsKey(f) ==> utf8(f.payload)) ==>
              KeyOver(fs, utf8).Some? && (StatesKey(fs) ==> KeyOver(fs, utf8).value == Some(DecodedKey(fs)))
    ensures !StatesKey(fs) ==> DecodedKey(fs) == []
  {
    if fs != [] {
      var n := |fs| - 1;
      JudgedKeyIsDecoded(fs[..n], utf8);
      assert fs[n] in fs && forall f :: f in fs <==> f in fs[..n] || f == fs[n];
    }
  }

  /** The entry a decoder reads for `k` names `k` outright. */
  predicate WinnerStatesKey(m: map<seq<Byte>, seq<Byte>>, k: seq<Byte>) {
    k in m ==> Parse(m[k]).Some? && StatesKey(Parse(m[k]).value)
  }

  predicate SameAt(x: map<seq<Byte>, seq<Byte>>, y: map<seq<Byte>, seq<Byte>>, k: seq<Byte>) {
    (k in x <==> k in y) && (k in y ==> x[k] == y[k])
  }

  lemma {:induction false} DecodedAfterWithholding(fs: seq<Field>, forward: Forward, utf8: Utf8, k: seq<Byte>)
    ensures var kept := Credentials(Kept(fs, forward, utf8));
            WinnerStatesKey(kept, k) && (k in kept ==> forward(k))
    ensures var kept := Credentials(Kept(fs, forward, utf8));
            Decodable(fs, utf8) && forward(k) ==>
              (SameAt(kept, Credentials(fs), k) <==> WinnerStatesKey(Credentials(fs), k))
  {
    hide *;
    NoCredentials(forward, utf8, k);
    if fs != [] {
      var n := |fs| - 1;
      var f, before := fs[n], Kept(fs[..n], forward, utf8);
      assert fs[..n] + [f] == fs;
      DecodedAfterWithholding(fs[..n], forward, utf8, k);
      KeptAppend(fs[..n], f, forward, utf8);
      CredentialsAppend(before, f);
      CredentialsAppend(fs[..n], f);
      if Decodable(fs, utf8) { DecodableSplit(fs[..n], f, utf8); }
      JudgedAsDecoded(f, forward, utf8);
      assert before + [] == before;
      AtKey(Credentials(before), k);
      AtKey(Credentials(fs[..n]), k);
      AtKey(Credentials(before + [f]), k);
      AtKey(Credentials(fs), k);
      SameAtIs(Credentials(before), Credentials(fs[..n]), k);
      SameAtIs(Credentials(Kept(fs, forward, utf8)), Credentials(fs), k);
    }
  }

  lemma AtKey(m: map<seq<Byte>, seq<Byte>>, k: seq<Byte>)
    ensures WinnerStatesKey(m, k) <==> (k in m ==> Parse(m[k]).Some? && StatesKey(Parse(m[k]).value))
  {
    hide Parse, StatesKey;
  }

  lemma SameAtIs(x: map<seq<Byte>, seq<Byte>>, y: map<seq<Byte>, seq<Byte>>, k: seq<Byte>)
    ensures SameAt(x, y, k) <==> (k in x <==> k in y) && (k in y ==> x[k] == y[k])
  {}

  lemma NoCredentials(forward: Forward, utf8: Utf8, k: seq<Byte>)
    ensures Kept([], forward, utf8) == [] && Credentials([]) == map[]
    ensures WinnerStatesKey(map[], k) && SameAt(map[], map[], k)
  {}

  lemma DecodableSplit(fs: seq<Field>, f: Field, utf8: Utf8)
    requires Decodable(fs + [f], utf8)
    ensures Decodable(fs, utf8) && Decodable([f], utf8)
  {
    hide Parse;
    assert forall g :: g in fs ==> g in fs + [f];
    assert f in fs + [f];
  }

  lemma CredentialsAppend(fs: seq<Field>, f: Field)
    ensures Credentials(fs + [f])
            == if f.num == CREDENTIALS_FIELD && f.wire == 2 && Parse(f.payload).Some?
               then Credentials(fs)[DecodedKey(Parse(f.payload).value) := f.payload]
               else Credentials(fs)
  {
    assert (fs + [f])[..|fs|] == fs;
  }

  lemma JudgedAsDecoded(f: Field, forward: Forward, utf8: Utf8)
    ensures f.num != CREDENTIALS_FIELD ==> Keeps(f, forward, utf8)
    ensures f.num == CREDENTIALS_FIELD && Keeps(f, forward, utf8) ==>
              && f.wire == 2 && Parse(f.payload).Some? && StatesKey(Parse(f.payload).value)
              && forward(DecodedKey(Parse(f.payload).value))
    ensures f.num == CREDENTIALS_FIELD && Decodable([f], utf8) ==>
              && f.wire == 2 && Parse(f.payload).Some?
              && (forward(DecodedKey(Parse(f.payload).value)) && StatesKey(Parse(f.payload).value) ==> Keeps(f, forward, utf8))
  {
    hide Parse, ParseField, StatesKey;
    assert f in [f];
    if Parse(f.payload).Some? { JudgedKeyIsDecoded(Parse(f.payload).value, utf8); }
  }

  /** The runner's `forward` */
  function Grants(granted: set<seq<Byte>>, pull: seq<Byte>): Forward {
    name => name != pull && name in granted
  }

  lemma GrantsIs(granted: set<seq<Byte>>, pull: seq<Byte>, k: seq<Byte>)
    ensures Grants(granted, pull)(k) <==> k in granted && k != pull
  {}

  /** The runner's predicate over the withheld request: whatever the request, a
      decoder of the forwarded bytes reads only granted keys and never the pull
      credential; and of a request the typed decode accepts, a granted entry is
      read back with its value exactly when the entry the decoder reads for it
      states its key. An omitted key decodes as the empty name, so only a
      credential named by the empty string can fail to. */
  lemma GuestReadsExactlyTheGrants(raw: seq<Byte>, granted: set<seq<Byte>>, pull: seq<Byte>, utf8: Utf8, k: seq<Byte>)
    requires Parse(raw).Some?
    ensures var out := Retained(raw, Grants(granted, pull), utf8);
            && out.Some? && Parse(out.value).Some?
            && var all, read := Credentials(Parse(raw).value), Credentials(Parse(out.value).value);
               && (k in read ==> k in granted && k != pull)
               && (Decodable(Parse(raw).value, utf8) && k in granted && k != pull ==>
                     (SameAt(read, all, k) <==> WinnerStatesKey(all, k)))
               && (k != [] ==> WinnerStatesKey(all, k))
  {
    var forward := Grants(granted, pull);
    GrantsIs(granted, pull, k);
    hide *;
    RetainIsAFilter(raw, forward, utf8);
    DecodedAfterWithholding(Parse(raw).value, forward, utf8, k);
    NamedStatesKey(Parse(raw).value, k);
  }

  lemma {:induction false} NamedStatesKey(fs: seq<Field>, k: seq<Byte>)
    ensures k in Credentials(fs) ==> Parse(Credentials(fs)[k]).Some? && DecodedKey(Parse(Credentials(fs)[k]).value) == k
    ensures k != [] ==> WinnerStatesKey(Credentials(fs), k)
  {
    hide *;
    if fs == [] {
      NoCredentials(_ => true, _ => true, k);
    } else {
      var n := |fs| - 1;
      assert fs[..n] + [fs[n]] == fs;
      NamedStatesKey(fs[..n], k);
      CredentialsAppend(fs[..n], fs[n]);
    }
    AtKey(Credentials(fs), k);
    if k in Credentials(fs) { JudgedKeyIsDecoded(Parse(Credentials(fs)[k]).value, _ => true); }
  }

  /** The bytes the runner forwards, given the names the typed decode found:
      the caller's own when none of them is withheld. */
  function Forwarded(raw: seq<Byte>, names: set<seq<Byte>>, granted: set<seq<Byte>>, pull: seq<Byte>, utf8: Utf8): Option<seq<Byte>> {
    if forall name :: name in names ==> Grants(granted, pull)(name) then Some(raw)
    else Retained(raw, Grants(granted, pull), utf8)
  }

  /** No admitted manifest grants the empty name. So of every request that
      parses, and whose credentials are entries with strings for keys, the
      guest reads exactly the granted credentials but the pull credential, each
      with the value a decoder of the caller's bytes reads. */
  lemma RunnerForwardsExactlyTheGrants(raw: seq<Byte>, granted: set<seq<Byte>>, pull: seq<Byte>, utf8: Utf8)
    requires Parse(raw).Some? && Decodable(Parse(raw).value, utf8) && [] !in granted
    ensures var all := Credentials(Parse(raw).value);
            var out := Forwarded(raw, all.Keys, granted, pull, utf8);
            && out.Some? && Parse(out.value).Some?
            && Credentials(Parse(out.value).value) == map k | k in all && k in granted && k != pull :: all[k]
  {
    hide *;
    var all := Credentials(Parse(raw).value);
    var out := Forwarded(raw, all.Keys, granted, pull, utf8);
    ForwardedIs(raw, all.Keys, granted, pull, utf8);
    GuestReadsExactlyTheGrants(raw, granted, pull, utf8, []);
    var read := Credentials(Parse(out.value).value);
    forall k
      ensures k in read <==> k in all && k in granted && k != pull
      ensures k in read ==> read[k] == all[k]
    {
      GuestReadsExactlyTheGrants(raw, granted, pull, utf8, k);
      GrantsIs(granted, pull, k);
      SameAtIs(read, all, k);
      if forall name :: name in all.Keys ==> Grants(granted, pull)(name) { assert read == all; }
    }
    assert read == map k | k in all && k in granted && k != pull :: all[k];
  }

  lemma ForwardedIs(raw: seq<Byte>, names: set<seq<Byte>>, granted: set<seq<Byte>>, pull: seq<Byte>, utf8: Utf8)
    ensures Forwarded(raw, names, granted, pull, utf8)
            == if forall name :: name in names ==> Grants(granted, pull)(name) then Some(raw)
               else Retained(raw, Grants(granted, pull), utf8)
  {
    hide Retained, Grants;
  }

  // ------------------------------------------------------- the two responses

  function MetaField(meta: seq<Byte>): Field {
    Field(META_FIELD, 2, 1, [META_FIELD * 8 + 2] + PushVarint(|meta|) + meta, meta)
  }

  method AppendMeta(raw: seq<Byte>, meta: seq<Byte>) returns (r: seq<Byte>)
    ensures r == raw + MetaField(meta).raw
  {
    r := raw + [META_FIELD * 8 + 2];
    r := WriteVarint(r, |meta|);
    r := r + meta;
  }

  lemma OneByteTag(tag: nat, rest: seq<Byte>)
    requires tag < 128
    ensures Varint([tag] + rest) == Some((tag, 1))
    ensures ([tag] + rest)[1..] == rest
  {
    assert Shifted(tag, 0) == tag;
  }

  lemma MetaIsOneField(meta: seq<Byte>)
    requires |meta| < U64
    ensures Good(MetaField(meta))
  {
    var s := MetaField(meta).raw;
    var body := PushVarint(|meta|) + meta;
    assert s == [META_FIELD * 8 + 2] + body;
    OneByteTag(META_FIELD * 8 + 2, body);
    VarintRoundTrip(|meta|, meta);
    assert body[|PushVarint(|meta|)|..|body|] == meta;
    assert s[..|s|] == s;
  }

  /** Appending meta to a response that parses appends exactly one field 1. */
  lemma AppendMetaAppendsOneField(raw: seq<Byte>, meta: seq<Byte>)
    requires Parse(raw).Some? && |meta| < U64
    ensures Parse(raw + MetaField(meta).raw) == Some(Parse(raw).value + [MetaField(meta)])
  {
    FlattenParse(raw);
    MetaIsOneField(meta);
    var fs, m := Parse(raw).value, MetaField(meta);
    FlattenAppend(fs, [m]);
    assert Flatten([m]) == m.raw + Flatten([m][1..]) == m.raw;
    ParseFlatten(fs + [m]);
  }

  predicate Crosses(f: Field) {
    f.wire == 2 && (f.num == REQUEST_DESIRED_FIELD || f.num == REQUEST_CONTEXT_FIELD)
  }

  /** The field under its response number, length and body untouched. */
  function Retag(f: Field): Field
    requires Crosses(f) && f.tagLen <= |f.raw|
  {
    var num := if f.num == REQUEST_DESIRED_FIELD then RESPONSE_DESIRED_FIELD else RESPONSE_CONTEXT_FIELD;
    Field(num, 2, 1, [num * 8 + 2] + f.raw[f.tagLen..], f.payload)
  }

  function Crossing(fs: seq<Field>): seq<Field> {
    if fs == [] then []
    else
      var f := fs[|fs| - 1];
      Crossing(fs[..|fs| - 1]) + (if Crosses(f) && f.tagLen <= |f.raw| then [Retag(f)] else [])
  }

  /** The fields s starts with, up to the first that does not parse. */
  function ParsedPrefix(s: seq<Byte>): seq<Field>
    decreases |s|
  {
    if s == [] then []
    else
      match ParseField(s)
      case None => []
      case Some(f) => [f] + ParsedPrefix(s[|f.raw|..])
  }

  /** `all` is what has been read, then what raw[i..] starts with. */
  ghost predicate Prefixed(all: seq<Field>, raw: seq<Byte>, i: nat, done: seq<Field>) {
    i <= |raw| && all == done + ParsedPrefix(raw[i..])
  }

  lemma PrefixUnfold(raw: seq<Byte>, i: nat)
    requires i < |raw|
    ensures match ParseField(raw[i..])
            case None => ParsedPrefix(raw[i..]) == []
            case Some(f) => i < i + |f.raw| <= |raw| && f.tagLen <= |f.raw| && raw[i..i + |f.raw|] == f.raw
                            && ParsedPrefix(raw[i..]) == [f] + ParsedPrefix(raw[i + |f.raw|..])
  {
    if ParseField(raw[i..]).Some? {
      var f := ParseField(raw[i..]).value;
      assert raw[i..][|f.raw|..] == raw[i + |f.raw|..];
    }
  }

  lemma Reassociate(all: seq<Field>, done: seq<Field>, f: Field, rest: seq<Field>)
    requires all == done + ([f] + rest)
    ensures all == (done + [f]) + rest
  {}

  method ReadAhead(ghost all: seq<Field>, raw: seq<Byte>, i: nat, ghost done: seq<Field>)
    returns (r: Option<Spot>, ghost f: Field)
    requires i < |raw| && Prefixed(all, raw, i, done)
    ensures r.None? ==> all == done
    ensures r.Some? ==>
              var p := r.value;
              && i < p.start <= p.end <= |raw| && p.num == f.num && p.wire == f.wire
              && f.tagLen <= |f.raw| && raw[p.start..p.end] == f.raw[f.tagLen..]
              && Prefixed(all, raw, p.end, done + [f])
  {
    hide ParsedPrefix, ParseField;
    r := ReadSpot(raw, i);
    PrefixUnfold(raw, i);
    if r.Some? {
      f := ParseField(raw[i..]).value;
      Reassociate(all, done, f, ParsedPrefix(raw[i + |f.raw|..]));
      assert raw[r.value.start..r.value.end] == raw[i..r.value.end][f.tagLen..];
    } else {
      f := Field(0, 0, 0, [], []);
    }
  }

  /** The body of the loop once a field is read. */
  method CopyAcross(out: seq<Byte>, raw: seq<Byte>, p: Spot, ghost f: Field) returns (r: seq<Byte>)
    requires p.start <= p.end <= |raw| && p.num == f.num && p.wire == f.wire
    requires f.tagLen <= |f.raw| && raw[p.start..p.end] == f.raw[f.tagLen..]
    ensures r == out + (if Crosses(f) then Retag(f).raw else [])
  {
    r := out;
    if p.wire == 2 && (p.num == REQUEST_DESIRED_FIELD || p.num == REQUEST_CONTEXT_FIELD) {
      var field := if p.num == REQUEST_DESIRED_FIELD then RESPONSE_DESIRED_FIELD else RESPONSE_CONTEXT_FIELD;
      r := r + ([field * 8 + 2] + raw[p.start..p.end]);
    }
  }

  method NoopResponse(rawRequest: seq<Byte>, meta: seq<Byte>) returns (out: seq<Byte>)
    ensures out == MetaField(meta).raw + Crossed(rawRequest)
  {
    ghost var all := ParsedPrefix(rawRequest);
    var head := AppendMeta([], meta);
    assert head == MetaField(meta).raw && rawRequest[0..] == rawRequest && [] + all == all;
    out := CopyCrossing(head, rawRequest, all);
  }

  method CopyCrossing(head: seq<Byte>, raw: seq<Byte>, ghost all: seq<Field>) returns (out: seq<Byte>)
    requires Prefixed(all, raw, 0, [])
    ensures out == head + Flatten(Crossing(all))
  {
    hide *;
    out := head;
    var i := 0;
    ghost var done: seq<Field> := [];
    NothingCrossed();
    while i < |raw|
      invariant i <= |raw| && Prefixed(all, raw, i, done)
      invariant out == head + Flatten(Crossing(done))
      decreases |raw| - i
    {
      ghost var f;
      var next;
      next, f := ReadAhead(all, raw, i, done);
      if next.None? { return; }
      CrossingFlatten(done, f);
      out := CopyAcross(out, raw, next.value, f);
      done := done + [f];
      i := next.value.end;
    }
    PrefixedEnd(all, raw, done);
  }

  lemma NothingCrossed()
    ensures Flatten(Crossing([])) == []
  {}

  lemma PrefixedEnd(all: seq<Field>, raw: seq<Byte>, done: seq<Field>)
    requires Prefixed(all, raw, |raw|, done)
    ensures all == done
  {
    assert raw[|raw|..] == [] && done + [] == done;
  }

  lemma CrossingFlatten(fs: seq<Field>, f: Field)
    ensures Flatten(Crossing(fs + [f]))
            == Flatten(Crossing(fs)) + (if Crosses(f) && f.tagLen <= |f.raw| then Retag(f).raw else [])
  {
    assert (fs + [f])[..|fs|] == fs;
    var tail := if Crosses(f) && f.tagLen <= |f.raw| then [Retag(f)] else [];
    FlattenAppend(Crossing(fs), tail);
    if tail != [] { assert Flatten(tail) == tail[0].raw + Flatten(tail[1..]); }
  }

  lemma RetagIsGood(f: Field)
    requires Good(f) && Crosses(f) && f.tagLen <= |f.raw|
    ensures Good(Retag(f))
  {
    var g, rest := Retag(f), f.raw[f.tagLen..];
    FieldParts(f.raw);
    hide Varint, ValueLen, Body;
    OneByteTag(g.num * 8 + 2, rest);
    assert g.raw == [g.num * 8 + 2] + rest;
    assert g.raw[1..] == rest && g.raw[..1 + |rest|] == g.raw;
    ValueLocal(rest, 2, rest);
  }

  lemma {:induction false} CrossingIsGood(fs: seq<Field>)
    requires forall f :: f in fs ==> Good(f)
    ensures forall g :: g in Crossing(fs) ==> Good(g)
  {
    if fs != [] {
      var f := fs[|fs| - 1];
      CrossingIsGood(fs[..|fs| - 1]);
      if Crosses(f) && f.tagLen <= |f.raw| { RetagIsGood(f); }
    }
  }

  lemma {:induction false} PrefixIsGood(s: seq<Byte>)
    ensures forall f :: f in ParsedPrefix(s) ==> Good(f) && f.tagLen <= |f.raw|
    ensures Parse(s).Some? ==> ParsedPrefix(s) == Parse(s).value
    decreases |s|
  {
    if s != [] && ParseField(s).Some? {
      var f := ParseField(s).value;
      FieldLocal(s, f.raw);
      PrefixIsGood(s[|f.raw|..]);
    }
  }

  /** The no-op response always parses: meta, then the request's desired state
      and context in wire order under their response numbers with the same
      length prefix and body, and nothing else. On a request that parses these
      are all its fields 3 and 5; otherwise those before the broken field. */
  lemma NoopIsMetaThenCrossing(rawRequest: seq<Byte>, meta: seq<Byte>)
    requires |meta| < U64
    ensures var fs := ParsedPrefix(rawRequest);
            && Parse(MetaField(meta).raw + Flatten(Crossing(fs))) == Some([MetaField(meta)] + Crossing(fs))
            && (Parse(rawRequest).Some? ==> fs == Parse(rawRequest).value)
  {
    PrefixIsGood(rawRequest);
    CrossingIsGood(ParsedPrefix(rawRequest));
    MetaIsOneField(meta);
    var all := [MetaField(meta)] + Crossing(ParsedPrefix(rawRequest));
    ParseFlatten(all);
    assert all[1..] == Crossing(ParsedPrefix(rawRequest));
  }

  /** What crosses over is exactly the desired state and context, in order. */
  lemma {:induction false} CrossingBodies(fs: seq<Field>)
    requires forall f :: f in fs ==> f.tagLen <= |f.raw|
    ensures Bodies(Crossing(fs), RESPONSE_DESIRED_FIELD) == Bodies(fs, REQUEST_DESIRED_FIELD)
    ensures Bodies(Crossing(fs), RESPONSE_CONTEXT_FIELD) == Bodies(fs, REQUEST_CONTEXT_FIELD)
    ensures forall g :: g in Crossing(fs) ==> g.wire == 2 && g.num in {RESPONSE_DESIRED_FIELD, RESPONSE_CONTEXT_FIELD}
  {
    if fs != [] {
      var f, before := fs[|fs| - 1], Crossing(fs[..|fs| - 1]);
      CrossingBodies(fs[..|fs| - 1]);
      if Crosses(f) {
        assert (before + [Retag(f)])[..|before|] == before;
      } else {
        assert before + [] == before;
      }
    }
  }

  /** The bodies of the length-delimited fields of one number, in order. */
  function Bodies(fs: seq<Field>, num: nat): seq<seq<Byte>> {
    if fs == [] then []
    else
      var f := fs[|fs| - 1];
      Bodies(fs[..|fs| - 1], num) + (if f.num == num && f.wire == 2 then [f.payload] else [])
  }

  /** The doc comment promises the bare meta for request bytes that do not
      parse. That holds exactly when no desired state or context stands before
      the broken field. */
  lemma NoopIsBareMeta(rawRequest: seq<Byte>, meta: seq<Byte>)
    ensures MetaField(meta).raw + Flatten(Crossing(ParsedPrefix(rawRequest))) == MetaField(meta).raw
            <==> forall f :: f in ParsedPrefix(rawRequest) ==> !Crosses(f)
  {
    PrefixIsGood(rawRequest);
    CrossingEmpty(ParsedPrefix(rawRequest));
    var m, x := MetaField(meta).raw, Flatten(Crossing(ParsedPrefix(rawRequest)));
    assert |m + x| == |m| + |x|;
    assert x == [] ==> m + x == m;
  }

  lemma {:induction false} CrossingEmpty(fs: seq<Field>)
    requires forall f :: f in fs ==> f.tagLen <= |f.raw|
    ensures Flatten(Crossing(fs)) == [] <==> forall f :: f in fs ==> !Crosses(f)
  {
    if fs != [] {
      var n := |fs| - 1;
      CrossingEmpty(fs[..n]);
      assert fs[..n] + [fs[n]] == fs;
      CrossingFlatten(fs[..n], fs[n]);
      assert fs[n] in fs;
      assert forall f :: f in fs <==> f in fs[..n] || f == fs[n];
    }
  }

  /** An empty desired state and a stray byte: the request does not parse, and
      its desired state crosses over all the same. */
  lemma BrokenRequestStillCrosses(meta: seq<Byte>)
    ensures var raw: seq<Byte> := [0x1a, 0x00, 0xff];
            && Parse(raw) == None
            && MetaField(meta).raw + Flatten(Crossing(ParsedPrefix(raw))) != MetaField(meta).raw
  {
    var raw: seq<Byte> := [0x1a, 0x00, 0xff];
    OneByteTag(0x1a, [0x00, 0xff]);
    assert raw == [0x1a] + [0x00, 0xff];
    OneByteTag(0x00, [0xff]);
    assert [0x00, 0xff] == [0x00] + [0xff];
    var f := Field(3, 2, 1, [0x1a, 0x00], []);
    assert ValueLen([0x00, 0xff], 2) == Some(1);
    assert raw[..2] == f.raw;
    assert ParseField(raw) == Some(f);
    assert raw[2..] == [0xff] && [0xff][1..] == [];
    assert VarintFrom([0xff], 0) == None;
    assert ParsedPrefix([0xff]) == [] && Parse([0xff]) == None;
    assert ParsedPrefix(raw) == [f] + [];
    assert f in ParsedPrefix(raw) && Crosses(f);
    NoopIsBareMeta(raw, meta);
  }

  // ------------------------------------------------------------------ groups

  /** How far a group goes behind its start tag, its end tag included: fields,
      groups within it among them, up to the end tag of its own number. */
  function GroupLen(s: seq<Byte>, num: nat): (r: Option<nat>)
    ensures r.Some? ==> r.value <= |s|
    decreases |s|, 0
  {
    match Varint(s)
    case None => None
    case Some((tag, n)) =>
      VarintLocal(s, 0, s);
      if tag % 8 == 4 then if tag / 8 == num then Some(n) else None
      else
        match WideLen(s[n..], tag % 8, tag / 8)
        case None => None
        case Some(len) => match GroupLen(s[n + len..], num) case None => None case Some(rest) => Some(n + len + rest)
  }

  /** The length of a value as a protobuf decoder skips it, groups included. */
  function WideLen(s: seq<Byte>, wire: nat, num: nat): (r: Option<nat>)
    ensures r.Some? ==> r.value <= |s|
    decreases |s|, 1
  {
    if wire == 3 then GroupLen(s, num)
    else
      var r := ValueLen(s, wire);
      if r.Some? then ValueLocal(s, wire, s); r else r
  }

  function ParseFieldWide(s: seq<Byte>): (r: Option<Field>)
    ensures r.Some? ==> 0 < |r.value.raw| <= |s|
  {
    match Varint(s)
    case None => None
    case Some((tag, n)) =>
      VarintLocal(s, 0, s);
      match WideLen(s[n..], tag % 8, tag / 8)
      case None => None
      case Some(len) => Some(Field(tag / 8, tag % 8, n, s[..n + len], Body(s[n..], tag % 8, len)))
  }

  /** The fields a decoder that skips groups reads. */
  function ParseWide(s: seq<Byte>): Option<seq<Field>>
    decreases |s|
  {
    if s == [] then Some([])
    else
      match ParseFieldWide(s)
      case None => None
      case Some(f) => match ParseWide(s[|f.raw|..]) case None => None case Some(fs) => Some([f] + fs)
  }

  lemma WideField(s: seq<Byte>)
    requires ParseFieldWide(s).Some?
    ensures ParseField(s) == if ParseFieldWide(s).value.wire == 3 then None else ParseFieldWide(s)
  {
    hide GroupLen;
  }

  /** Bytes such a decoder reads parse here exactly when no field of theirs is a
      group; so the typed decode can accept a request that `retain_credentials`
      refuses to edit and `noop_response` breaks off in. */
  lemma {:induction false} GroupsDoNotParse(s: seq<Byte>)
    requires ParseWide(s).Some?
    ensures Parse(s).Some? <==> forall f :: f in ParseWide(s).value ==> f.wire != 3
    ensures Parse(s).Some? ==> Parse(s) == ParseWide(s)
    decreases |s|
  {
    hide ParseField, ParseFieldWide;
    if s != [] {
      var f := ParseFieldWide(s).value;
      WideField(s);
      GroupsDoNotParse(s[|f.raw|..]);
      assert f in ParseWide(s).value;
    }
  }

  /** An empty group of an unknown number is such a request. */
  lemma UnknownGroupDecodes()
    ensures var raw: seq<Byte> := [0x7b, 0x7c]; ParseWide(raw).Some? && Parse(raw) == None
  {
    var raw: seq<Byte> := [0x7b, 0x7c];
    OneByteTag(0x7b, [0x7c]);
    assert raw == [0x7b] + [0x7c];
    OneByteTag(0x7c, []);
    assert [0x7c] == [0x7c] + [];
    assert GroupLen([0x7c], 15) == Some(1);
    var f := Field(15, 3, 1, raw, []);
    assert raw[..2] == raw;
    assert ParseFieldWide(raw) == Some(f);
    assert raw[2..] == [] && ParseWide([]) == Some([]);
    WideField(raw);
  }

  // ------------------------------------------------------ the usize addition

  /** `i + n + len as usize` as a 64-bit release build computes it. */
  function SkipEndWrapping(i: nat, n: nat, len: nat, rawLen: nat): Option<nat> {
    var end := (i + n + len) % U64;
    if end <= rawLen then Some(end) else None
  }

  /** The wrapping sum and the integer sum of the model agree exactly when the
      sum does not wrap back inside the bytes; so they agree on every value the
      model accepts, which is every value of bytes that parse. */
  lemma WrappingSkipAgrees(raw: seq<Byte>, i: nat)
    requires i <= |raw| < U64 && Varint(raw[i..]).Some?
    ensures var (len, n) := Varint(raw[i..]).value;
            var modelled := match ValueLen(raw[i..], 2) case Some(m) => Some(i + m) case None => None;
            && (SkipEndWrapping(i, n, len, |raw|) == modelled
                <==> i + n + len < U64 || i + n + len - U64 > |raw|)
            && (modelled.Some? ==> SkipEndWrapping(i, n, len, |raw|) == modelled)
  {
    VarintLocal(raw[i..], 0, raw[i..]);
    VarintBound(raw[i..], 0);
  }

  /** Values stay below 2^64. */
  lemma {:induction false} VarintBound(s: seq<Byte>, k: nat)
    requires k <= 9 && VarintFrom(s, k).Some?
    ensures VarintFrom(s, k).value.0 <= U64 - Pow128(k)
    decreases |s|
  {
    PowMonotone(k);
    PowNext(k);
    if s[0] >= 128 { VarintBound(s[1..], k + 1); }
    ShiftedBound(s[0], k);
  }

  lemma {:induction false} PowMonotone(k: nat)
    requires k <= 9
    ensures 1 <= Pow128(k) <= 0x8000_0000_0000_0000
    ensures U64 % Pow128(k) == 0
  {
    PowNine();
    assert Pow128(6) == 128 * 128 * 128 * Pow128(3) && Pow128(3) == 128 * 128 * 128;
    match k {
      case 0 => case 1 => case 2 => case 3 => case 4 => case 5 => case 6 => case 7 => case 8 => case 9 =>
    }
  }

  lemma ShiftedBound(b: Byte, k: nat)
    requires k <= 9
    ensures k < 9 ==> Shifted(b, k) <= 127 * Pow128(k)
    ensures Shifted(b, k) <= U64 - Pow128(k)
  {
    hide Pow128;
    PowMonotone(k);
    PowNext(k);
    if k == 9 {
      PowNine();
      TopBit(b % 128);
    } else {
      PowMonotone(k + 1);
      GroupBound(b % 128, Pow128(k));
    }
  }

  lemma GroupBound(x: nat, p: nat)
    requires x <= 127
    ensures x * p <= 127 * p
  {}

  lemma PowNine()
    ensures Pow128(9) == 0x8000_0000_0000_0000
  {
    assert Pow128(9) == 128 * 128 * 128 * Pow128(6);
    assert Pow128(6) == 128 * 128 * 128 * Pow128(3) && Pow128(3) == 128 * 128 * 128;
  }

  lemma TopBit(x: nat)
    ensures x * 0x8000_0000_0000_0000 % U64 <= 0x8000_0000_0000_0000
  {
    var h := x / 2;
    assert x * 0x8000_0000_0000_0000 == h * U64 + (x % 2) * 0x8000_0000_0000_0000;
  }

  // ------------------------------------------------------ in bytes, outright

  /** Shifting every group of a short varint by one more multiplies it. */
  lemma {:induction false} OneGroupOn(t: seq<Byte>, k: nat)
    requires k <= 8 && VarintFrom(t, k).Some?
    requires VarintFrom(t, k).value.1 <= 9 - k && 128 * VarintFrom(t, k).value.0 < U64
    ensures VarintFrom(t, k + 1) == Some((128 * VarintFrom(t, k).value.0, VarintFrom(t, k).value.1))
    decreases |t|
  {
    var (v, n) := VarintFrom(t, k).value;
    PowNext(k);
    PowMonotone(k);
    GroupFits(t[0], k);
    hide Shifted, Pow128;
    if t[0] >= 128 {
      VarintLocal(t[1..], k + 1, t[1..]);
      OneGroupOn(t[1..], k + 1);
    }
  }

  lemma GroupFits(b: Byte, k: nat)
    requires k <= 8
    ensures 128 * Shifted(b, k) < U64 ==> Shifted(b, k + 1) == 128 * Shifted(b, k)
  {
    EightFits(b % 128, k);
    PowNext(k);
    ShiftedSmall(b, k);
    hide Pow128, Shifted;
    Regroup(b % 128, Pow128(k));
    if 128 * Shifted(b, k) < U64 { ShiftedSmall(b, k + 1); }
  }

  lemma EightFits(x: nat, k: nat)
    requires k <= 8 && x < 128
    ensures x * Pow128(k) < U64
  {
    PowMonotone(k);
    PowMonotone(k + 1);
    PowNext(k);
    hide Pow128;
    GroupBound(x, Pow128(k));
  }

  lemma Regroup(x: nat, p: nat)
    ensures x * (128 * p) == 128 * (x * p)
  {}

  lemma U64IsTwoTo64()
    ensures U64 == Pow2(64)
  {
    hide Pow2;
    Pow2To64();
  }

  /** A varint is its groups of seven bits, the lowest first: a byte below 128
      ends it, and one of 128 or more adds its rest to 128 times what follows. */
  lemma VarintIsBase128(b: Byte, t: seq<Byte>)
    ensures b < 128 ==> Varint([b] + t) == Some((b, 1))
    ensures b >= 128 && Varint(t).Some? && Varint(t).value.1 <= 9 && 128 * Varint(t).value.0 < U64 ==>
              Varint([b] + t) == Some((b - 128 + 128 * Varint(t).value.0, 1 + Varint(t).value.1))
  {
    var s := [b] + t;
    assert s[1..] == t && Pow128(0) == 1 && Shifted(b, 0) == b % 128;
    if b >= 128 && Varint(t).Some? && Varint(t).value.1 <= 9 && 128 * Varint(t).value.0 < U64 { OneGroupOn(t, 0); }
  }

  /** A number is written in as few bytes as it has groups. */
  lemma {:induction false} PushedIsShortest(v: nat)
    ensures var s := PushVarint(v);
            && s != [] && s[|s| - 1] < 128 && (forall i :: 0 <= i < |s| - 1 ==> s[i] >= 128)
            && (|s| > 1 ==> s[|s| - 1] > 0)
  {
    if v >= 128 {
      PushedIsShortest(v / 128);
      assert PushVarint(v)[1..] == PushVarint(v / 128);
      assert v / 128 < 128 ==> PushVarint(v / 128) == [v / 128];
    }
  }

  /** A length-delimited field as it stands in bytes. */
  function Delimited(tag: Byte, body: seq<Byte>): seq<Byte> {
    [tag] + (PushVarint(|body|) + body)
  }

  lemma DelimitedIs(tag: Byte, body: seq<Byte>, rest: seq<Byte>)
    requires tag < 128 && tag % 8 == 2 && |body| < U64
    ensures ParseField(Delimited(tag, body) + rest) == Some(Field(tag / 8, 2, 1, Delimited(tag, body), body))
  {
    hide PushVarint, Varint;
    var s, v := Delimited(tag, body) + rest, PushVarint(|body|) + body + rest;
    assert s == [tag] + v && v == PushVarint(|body|) + (body + rest);
    OneByteTag(tag, v);
    VarintRoundTrip(|body|, body + rest);
    var n := |PushVarint(|body|)|;
    assert v[n..n + |body|] == body;
    assert s[..1 + n + |body|] == Delimited(tag, body);
  }

  /** The other wire types: a varint, eight bytes, four bytes, or no value. */
  lemma FixedIs(tag: Byte, v: nat, eight: seq<Byte>, four: seq<Byte>, rest: seq<Byte>)
    requires tag < 128 && v < U64 && |eight| == 8 && |four| == 4
    ensures tag % 8 == 0 ==>
              ParseField([tag] + (PushVarint(v) + rest)) == Some(Field(tag / 8, 0, 1, [tag] + PushVarint(v), []))
    ensures tag % 8 == 1 ==> ParseField([tag] + (eight + rest)) == Some(Field(tag / 8, 1, 1, [tag] + eight, []))
    ensures tag % 8 == 5 ==> ParseField([tag] + (four + rest)) == Some(Field(tag / 8, 5, 1, [tag] + four, []))
    ensures tag % 8 in {3, 4, 6, 7} ==> ParseField([tag] + rest) == None
  {
    hide PushVarint, Varint;
    var x, y, z := PushVarint(v) + rest, eight + rest, four + rest;
    OneByteTag(tag, x);
    OneByteTag(tag, y);
    OneByteTag(tag, z);
    OneByteTag(tag, rest);
    VarintRoundTrip(v, rest);
    assert ([tag] + x)[..1 + |PushVarint(v)|] == [tag] + PushVarint(v);
    assert ([tag] + y)[..9] == [tag] + eight && ([tag] + z)[..5] == [tag] + four;
  }

  lemma ParseFirst(f: Field, rest: seq<Byte>)
    requires ParseField(f.raw + rest) == Some(f)
    ensures Parse(f.raw + rest) == (match Parse(rest) case None => None case Some(fs) => Some([f] + fs))
    ensures ParsedPrefix(f.raw + rest) == [f] + ParsedPrefix(rest)
  {
    hide ParseField;
    assert (f.raw + rest)[|f.raw|..] == rest;
  }

  lemma RetainedFirst(f: Field, rest: seq<Byte>, forward: Forward, utf8: Utf8)
    requires ParseField(f.raw + rest) == Some(f)
    ensures Retained(f.raw + rest, forward, utf8)
            == match Retained(rest, forward, utf8)
               case None => None
               case Some(out) => Some((if Keeps(f, forward, utf8) then f.raw else []) + out)
  {
    hide ParseField, Keeps, Parse;
    ParseFirst(f, rest);
    if Parse(rest).Some? {
      var fs := Parse(rest).value;
      assert ([f] + fs)[1..] == fs;
      var kept := if Keeps(f, forward, utf8) then [f] else [];
      assert Kept([f] + fs, forward, utf8) == kept + Kept(fs, forward, utf8);
      FlattenAppend(kept, Kept(fs, forward, utf8));
      FlattenOne(f);
    }
  }

  /** A credential as the request carries it: a map entry of field 7, its name
      under key 1 and its value under key 2. */
  function CredentialBytes(name: seq<Byte>, value: seq<Byte>): seq<Byte> {
    Delimited(0x3a, Delimited(0x0a, name) + Delimited(0x12, value))
  }

  lemma EntryNamesIt(name: seq<Byte>, value: seq<Byte>, utf8: Utf8)
    requires |name| < U64 && |value| < U64
    ensures EntryKey(Delimited(0x0a, name) + Delimited(0x12, value), utf8) == if utf8(name) then Some(name) else None
  {
    hide ParseField, PushVarint, Delimited;
    var k, v := Field(1, 2, 1, Delimited(0x0a, name), name), Field(2, 2, 1, Delimited(0x12, value), value);
    DelimitedIs(0x0a, name, v.raw);
    DelimitedIs(0x12, value, []);
    ParseFirst(v, []);
    ParseFirst(k, v.raw);
    assert v.raw + [] == v.raw;
    assert Parse([]) == Some([]) && [v] + [] == [v] && [k] + [v] == [k, v];
    assert Parse(k.raw + v.raw) == Some([k, v]);
    assert [k, v][..1] == [k] && [k][..0] == [] && KeyOver([], utf8) == Some(None);
    assert !IsKey(v) && IsKey(k);
    assert KeyOver([k, v], utf8) == KeyOver([k], utf8);
  }

  /** In bytes: a credential is dropped unless its name is a string that is
      forwarded, and nothing after it changes for it. */
  lemma CredentialIsWithheld(name: seq<Byte>, value: seq<Byte>, rest: seq<Byte>, forward: Forward, utf8: Utf8)
    requires |Delimited(0x0a, name) + Delimited(0x12, value)| < U64
    ensures Retained(CredentialBytes(name, value) + rest, forward, utf8)
            == match Retained(rest, forward, utf8)
               case None => None
               case Some(out) => Some((if utf8(name) && forward(name) then CredentialBytes(name, value) else []) + out)
  {
    var e := Delimited(0x0a, name) + Delimited(0x12, value);
    assert |name| < U64 && |value| < U64;
    EntryNamesIt(name, value, utf8);
    var f := Field(7, 2, 1, Delimited(0x3a, e), e);
    DelimitedIs(0x3a, e, rest);
    hide ParseField, EntryKey, Delimited, Retained;
    RetainedFirst(f, rest, forward, utf8);
  }

  /** In bytes: an entry of field 7 in which no name can be read is dropped. */
  lemma NamelessIsWithheld(entry: seq<Byte>, rest: seq<Byte>, forward: Forward, utf8: Utf8)
    requires |entry| < U64 && EntryKey(entry, utf8) == None
    ensures Retained(Delimited(0x3a, entry) + rest, forward, utf8) == Retained(rest, forward, utf8)
  {
    var f := Field(7, 2, 1, Delimited(0x3a, entry), entry);
    DelimitedIs(0x3a, entry, rest);
    hide ParseField, EntryKey, Delimited, Retained;
    RetainedFirst(f, rest, forward, utf8);
    if Retained(rest, forward, utf8).Some? {
      assert [] + Retained(rest, forward, utf8).value == Retained(rest, forward, utf8).value;
    }
  }

  /** In bytes: every field whose tag byte names another number stays. */
  lemma OtherFieldsStay(f: Field, rest: seq<Byte>, forward: Forward, utf8: Utf8)
    requires ParseField(f.raw + rest) == Some(f) && f.raw != [] && f.raw[0] < 128 && f.raw[0] / 8 != 7
    ensures Retained(f.raw + rest, forward, utf8)
            == match Retained(rest, forward, utf8) case None => None case Some(out) => Some(f.raw + out)
  {
    TagByte(f, rest);
    RetainedFirst(f, rest, forward, utf8);
    hide ParseField, EntryKey, Retained;
  }

  /** In bytes: a field 7 of any other wire type is dropped. */
  lemma NoEntryIsWithheld(f: Field, rest: seq<Byte>, forward: Forward, utf8: Utf8)
    requires ParseField(f.raw + rest) == Some(f) && f.raw != [] && f.raw[0] in {0x38, 0x39, 0x3d}
    ensures Retained(f.raw + rest, forward, utf8) == Retained(rest, forward, utf8)
  {
    TagByte(f, rest);
    RetainedFirst(f, rest, forward, utf8);
    hide ParseField, EntryKey, Retained;
    if Retained(rest, forward, utf8).Some? {
      assert [] + Retained(rest, forward, utf8).value == Retained(rest, forward, utf8).value;
    }
  }

  lemma TagByte(f: Field, rest: seq<Byte>)
    requires ParseField(f.raw + rest) == Some(f) && f.raw != [] && f.raw[0] < 128
    ensures f.num == f.raw[0] / 8 && f.wire == f.raw[0] % 8
  {
    var s := f.raw + rest;
    assert s == [s[0]] + s[1..];
    OneByteTag(s[0], s[1..]);
    hide ValueLen;
  }

  // -------------------------------------------- the two responses, in bytes

  lemma MetaInBytes(meta: seq<Byte>)
    ensures MetaField(meta).raw == Delimited(0x0a, meta)
  {
    assert [10] + PushVarint(|meta|) + meta == [10] + (PushVarint(|meta|) + meta);
  }

  function Own(f: Field): seq<Field> {
    if Crosses(f) && f.tagLen <= |f.raw| then [Retag(f)] else []
  }

  lemma CrossingSnoc(fs: seq<Field>, f: Field)
    ensures Crossing(fs + [f]) == Crossing(fs) + Own(f)
    ensures Crossing([]) == []
  {
    hide Crosses, Retag;
    assert (fs + [f])[..|fs|] == fs;
  }

  lemma {:induction false} CrossingConcat(fs: seq<Field>, gs: seq<Field>)
    ensures Crossing(fs + gs) == Crossing(fs) + Crossing(gs)
    decreases |gs|
  {
    hide *;
    if gs == [] {
      CrossingSnoc([], Field(0, 0, 0, [], []));
      assert fs + gs == fs && Crossing(fs) + [] == Crossing(fs);
    } else {
      var g, before := gs[|gs| - 1], gs[..|gs| - 1];
      CrossingConcat(fs, before);
      CrossingSnoc(fs + before, g);
      CrossingSnoc(before, g);
      assert gs == before + [g] && fs + gs == (fs + before) + [g];
      assert (Crossing(fs) + Crossing(before)) + Own(g) == Crossing(fs) + (Crossing(before) + Own(g));
    }
  }

  /** What crosses over to a no-op response. */
  function Crossed(raw: seq<Byte>): seq<Byte> {
    Flatten(Crossing(ParsedPrefix(raw)))
  }

  lemma CrossedFirst(f: Field, rest: seq<Byte>)
    requires ParseField(f.raw + rest) == Some(f) && f.tagLen <= |f.raw|
    ensures Crossed(f.raw + rest) == (if Crosses(f) then Retag(f).raw else []) + Crossed(rest)
  {
    hide ParseField, Crosses, Retag;
    ParseFirst(f, rest);
    CrossingConcat([f], ParsedPrefix(rest));
    assert [f][..0] == [];
    var own := if Crosses(f) then [Retag(f)] else [];
    assert Crossing([f]) == [] + own && [] + own == own;
    FlattenAppend(own, Crossing(ParsedPrefix(rest)));
    if own != [] { FlattenOne(Retag(f)); }
  }

  /** In bytes: the desired state, field 3, crosses as field 2, and the
      context, field 5, as field 4, with the body as it is. */
  lemma StateCrosses(body: seq<Byte>, rest: seq<Byte>)
    requires |body| < U64
    ensures Crossed(Delimited(0x1a, body) + rest) == Delimited(0x12, body) + Crossed(rest)
    ensures Crossed(Delimited(0x2a, body) + rest) == Delimited(0x22, body) + Crossed(rest)
  {
    var d, c := Field(3, 2, 1, Delimited(0x1a, body), body), Field(5, 2, 1, Delimited(0x2a, body), body);
    DelimitedIs(0x1a, body, rest);
    DelimitedIs(0x2a, body, rest);
    assert d.raw[1..] == PushVarint(|body|) + body && c.raw[1..] == PushVarint(|body|) + body;
    hide ParseField, PushVarint, Crossed;
    CrossedFirst(d, rest);
    CrossedFirst(c, rest);
  }

  /** In bytes: a field under any other tag byte does not cross. */
  lemma OthersDoNotCross(f: Field, rest: seq<Byte>)
    requires ParseField(f.raw + rest) == Some(f) && f.raw != [] && f.raw[0] < 128 && f.raw[0] != 0x1a && f.raw[0] != 0x2a
    ensures Crossed(f.raw + rest) == Crossed(rest)
  {
    TagByte(f, rest);
    hide ParseField, Crossed;
    CrossedFirst(f, rest);
    assert [] + Crossed(rest) == Crossed(rest);
  }

  lemma NothingCrosses()
    ensures Crossed([]) == []
  {}
}
