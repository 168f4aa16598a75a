/** The operator's dialAddress rules compiled to a prefix table
    (crates/function/src/authz.rs) and the decision the egress dialer takes
    from it (crates/function/src/egress.rs). */
module Dial {
  import opened Base
  import Decimal
  import Order

  // ------------------------------------------------------------------- bits

  /** Bit `j` of a word, counted from the lowest. */
  predicate Bit(a: nat, j: nat) {
    if j == 0 then a % 2 == 1 else Bit(a / 2, j - 1)
  }

  /** `a & b` */
  function And(a: nat, b: nat): nat {
    if a == 0 then 0 else 2 * And(a / 2, b / 2) + (if a % 2 == 1 && b % 2 == 1 then 1 else 0)
  }

  /** `x << k` in a word of `w` bits */
  function Shl(x: nat, k: nat, w: nat): nat {
    if k == 0 then x else (2 * Shl(x, k - 1, w)) % Pow2(w)
  }

  lemma {:induction false} ZeroBits(j: nat)
    ensures !Bit(0, j)
  {
    if j > 0 { ZeroBits(j - 1); }
  }

  lemma {:induction false} AndBits(a: nat, b: nat, j: nat)
    ensures Bit(And(a, b), j) <==> Bit(a, j) && Bit(b, j)
  {
    if a == 0 {
      ZeroBits(j);
    } else {
      var r := And(a / 2, b / 2);
      assert And(a, b) / 2 == r && (And(a, b) % 2 == 1 <==> a % 2 == 1 && b % 2 == 1);
      if j > 0 { AndBits(a / 2, b / 2, j - 1); }
    }
  }

  lemma {:induction false} AndBound(a: nat, b: nat)
    ensures And(a, b) <= a
  {
    if a > 0 { AndBound(a / 2, b / 2); }
  }

  lemma {:induction false} Pow2Monotone(j: nat, k: nat)
    requires j <= k
    ensures Pow2(j) <= Pow2(k)
  {
    if j < k { Pow2Monotone(j, k - 1); }
  }

  lemma {:induction false} ShiftedOnes(k: nat, w: nat)
    requires k < w
    ensures Shl(Pow2(w) - 1, k, w) == Pow2(w) - Pow2(k)
  {
    if k > 0 {
      ShiftedOnes(k - 1, w);
      Pow2Monotone(k, w);
      WrapOnce(2 * Shl(Pow2(w) - 1, k - 1, w), Pow2(w), Pow2(w) - Pow2(k));
    }
  }

  lemma WrapOnce(x: nat, m: nat, r: nat)
    requires 0 < m && r < m && x == m + r
    ensures x % m == r
  {}

  lemma {:induction false} HighOnes(k: nat, w: nat, j: nat)
    requires k <= w
    ensures Pow2(w) >= Pow2(k) && (Bit(Pow2(w) - Pow2(k), j) <==> k <= j < w)
    decreases w
  {
    Pow2Monotone(k, w);
    if k == w {
      ZeroBits(j);
    } else if k > 0 {
      Pow2Monotone(k - 1, w - 1);
      if j > 0 { HighOnes(k - 1, w - 1, j - 1); }
    } else {
      assert (Pow2(w) - 1) / 2 == Pow2(w - 1) - 1;
      if j > 0 { HighOnes(0, w - 1, j - 1); }
    }
  }

  ghost predicate SameBits(a: nat, b: nat, low: int, high: int) {
    forall j: nat :: low <= j < high ==> (Bit(a, j) <==> Bit(b, j))
  }

  /** A word is its bits. */
  lemma {:induction false} BitsDecide(a: nat, b: nat, w: nat)
    requires a < Pow2(w) && b < Pow2(w)
    requires SameBits(a, b, 0, w)
    ensures a == b
  {
    if w > 0 {
      assert Bit(a, 0) <==> Bit(b, 0);
      forall j: nat | j < w - 1 ensures Bit(a / 2, j) <==> Bit(b / 2, j) {
        assert Bit(a, j + 1) <==> Bit(b, j + 1);
      }
      BitsDecide(a / 2, b / 2, w - 1);
    }
  }

  // -------------------------------------------------- addresses and prefixes

  datatype Addr = V4(bits: nat) | V6(bits: nat)

  function Width(a: Addr): nat {
    if a.V4? then 32 else 128
  }

  /** An address fits its family's word. */
  predicate IsAddr(a: Addr) {
    a.bits < Pow2(Width(a))
  }

  datatype Prefix = Prefix(addr: Addr, len: nat)

  /** The shift a release build makes: `W - len` wraps in 32 bits and a shift
      takes its count modulo the word, so a length over the width, which only
      `Contains` of the other family asks for, shifts by the remainder. */
  function Mask(w: nat, len: nat): nat
    requires w > 0
  {
    if len == 0 then 0 else Shl(Pow2(w) - 1, (w - len) % w, w)
  }

  function Masked(p: Prefix): Prefix {
    var bits := And(p.addr.bits, Mask(Width(p.addr), p.len));
    Prefix(if p.addr.V4? then V4(bits) else V6(bits), p.len)
  }

  function Contains(p: Prefix, ip: Addr): bool {
    Masked(Prefix(ip, p.len)).addr == p.addr
  }

  /** What a network contains: its own family's addresses with its leading
      bits. */
  ghost predicate InNetwork(base: Addr, len: nat, ip: Addr) {
    base.V4? == ip.V4? && SameBits(ip.bits, base.bits, Width(base) - len, Width(base))
  }

  lemma MaskBits(w: nat, len: nat, j: nat)
    requires 0 < w && len <= w
    ensures Bit(Mask(w, len), j) <==> w - len <= j < w
  {
    hide Bit, Shl, Pow2;
    if len == 0 {
      ZeroBits(j);
    } else {
      SmallMod(w - len, w);
      ShiftedOnes(w - len, w);
      HighOnes(w - len, w, j);
    }
  }

  lemma SmallMod(x: nat, m: nat)
    requires x < m
    ensures x % m == x
  {}

  lemma MaskedBits(p: Prefix, j: nat)
    requires p.len <= Width(p.addr)
    ensures Bit(Masked(p).addr.bits, j) <==> Bit(p.addr.bits, j) && Width(p.addr) - p.len <= j < Width(p.addr)
  {
    AndBits(p.addr.bits, Mask(Width(p.addr), p.len), j);
    MaskBits(Width(p.addr), p.len, j);
  }

  lemma MaskedIsAddr(p: Prefix)
    requires IsAddr(p.addr)
    ensures IsAddr(Masked(p).addr) && Masked(p).addr.V4? == p.addr.V4?
  {
    AndBound(p.addr.bits, Mask(Width(p.addr), p.len));
  }

  /** A masked prefix contains exactly the addresses of its family with its
      leading bits; an address of the other family never, whatever the
      length. */
  lemma ContainsExactly(base: Addr, len: nat, ip: Addr)
    requires IsAddr(base) && IsAddr(ip) && len <= Width(base)
    ensures Contains(Masked(Prefix(base, len)), ip) <==> InNetwork(base, len, ip)
  {
    hide And, Mask, Bit, Pow2;
    var p, q := Masked(Prefix(base, len)), Masked(Prefix(ip, len));
    MaskedIsAddr(Prefix(base, len));
    MaskedIsAddr(Prefix(ip, len));
    if base.V4? == ip.V4? {
      var w := Width(base);
      forall j: nat
        ensures Bit(p.addr.bits, j) <==> Bit(base.bits, j) && w - len <= j < w
        ensures Bit(q.addr.bits, j) <==> Bit(ip.bits, j) && w - len <= j < w
      {
        MaskedBits(Prefix(base, len), j);
        MaskedBits(Prefix(ip, len), j);
      }
      if InNetwork(base, len, ip) { BitsDecide(p.addr.bits, q.addr.bits, w); }
    }
  }

  // ------------------------------------------------- prefixes as bit ranges

  lemma DivTwice(a: nat, p: nat)
    requires p > 0
    ensures (a / 2) / p == a / (2 * p)
  {
    var q, r := (a / 2) / p, (a / 2) % p;
    assert a == (2 * p) * q + (2 * r + a % 2);
    Decimal.DivUnique(a, 2 * p, q, 2 * r + a % 2);
  }

  /** `a >> k` */
  function Shr(a: nat, k: nat): nat {
    if k == 0 then a else Shr(a / 2, k - 1)
  }

  lemma {:induction false} ShrIsDiv(a: nat, k: nat)
    ensures Shr(a, k) == a / Pow2(k)
  {
    if k > 0 {
      ShrIsDiv(a / 2, k - 1);
      DivTwice(a, Pow2(k - 1));
    }
  }

  lemma {:induction false} BitShift(a: nat, k: nat, j: nat)
    ensures Bit(a, k + j) <==> Bit(Shr(a, k), j)
  {
    if k > 0 { BitShift(a / 2, k - 1, j); }
  }

  lemma {:induction false} Shrunk(a: nat, k: nat, w: nat)
    requires k <= w && a < Pow2(w)
    ensures Shr(a, k) < Pow2(w - k)
  {
    if k > 0 { Shrunk(a / 2, k - 1, w - 1); }
  }

  lemma SameHighBits(a: nat, b: nat, k: nat, w: nat)
    requires k <= w && a < Pow2(w) && b < Pow2(w)
    ensures Shr(a, k) == Shr(b, k) <==> SameBits(a, b, k, w)
  {
    hide Bit, Shr, Pow2;
    var x, y := Shr(a, k), Shr(b, k);
    Shrunk(a, k, w);
    Shrunk(b, k, w);
    forall j: nat ensures (Bit(x, j) <==> Bit(a, k + j)) && (Bit(y, j) <==> Bit(b, k + j)) {
      BitShift(a, k, j);
      BitShift(b, k, j);
    }
    if SameBits(a, b, k, w) { BitsDecide(x, y, w - k); }
    forall j: nat | k <= j < w ensures x == y ==> (Bit(a, j) <==> Bit(b, j)) {
      BitShift(a, k, j - k);
      BitShift(b, k, j - k);
    }
  }

  /** A network is the addresses that agree with its base once shifted. */
  lemma NetworkIsRange(base: Addr, len: nat, ip: Addr)
    requires IsAddr(base) && IsAddr(ip) && len <= Width(base)
    ensures InNetwork(base, len, ip) <==>
            base.V4? == ip.V4? && Shr(ip.bits, Width(base) - len) == Shr(base.bits, Width(base) - len)
  {
    hide Bit, Pow2, Shr;
    if base.V4? == ip.V4? { SameHighBits(ip.bits, base.bits, Width(base) - len, Width(base)); }
  }

  lemma Powers()
    ensures Pow2(16) == 0x1_0000 && Pow2(20) == 0x10_0000 && Pow2(22) == 0x40_0000 && Pow2(24) == 0x100_0000
    ensures Pow2(28) == 0x1000_0000 && Pow2(32) == 0x1_0000_0000
  {
    assert Pow2(8) == 0x100;
    Pow2Add(8, 8);
    Pow2Add(4, 16);
    Pow2Add(2, 20);
    Pow2Add(2, 22);
    Pow2Add(4, 24);
    Pow2Add(4, 28);
  }

  lemma WidePowers()
    ensures Pow2(96) == 0x1_0000_0000_0000_0000_0000_0000
    ensures Pow2(118) == 0x40_0000_0000_0000_0000_0000_0000_0000
    ensures Pow2(120) == 0x100_0000_0000_0000_0000_0000_0000_0000
    ensures Pow2(121) == 0x200_0000_0000_0000_0000_0000_0000_0000
    ensures Pow2(128) == 0x1_0000_0000_0000_0000_0000_0000_0000_0000
  {
    Powers();
    Pow2Add(32, 32);
    Pow2Add(32, 64);
    Pow2Add(22, 96);
    Pow2Add(2, 118);
    Pow2Add(1, 120);
    Pow2Add(7, 121);
  }

  // -------------------------------------------------------------- ip tests

  /** The text of an `ip("...")` literal, read: not an address, an address on
      its own, or an address and a prefix length. */
  datatype Literal = NotAnIp | Bare(addr: Addr) | Cidr(addr: Addr, len: nat)

  datatype Arg = ContextIp | IpLiteral(literal: Literal) | OtherArg

  /** A condition's expression. One that is no ip test carries what Cedar makes
      of it. */
  datatype Test =
    | Or(left: Test, right: Test)
    | InRange(args: seq<Arg>)
    | Loopback(args: seq<Arg>)
    | OtherTest(meaning: Addr -> bool)

  datatype DialError =
    | InSet | Constrained | TooManyConditions | NotWhen
    | Unsupported | InRangeArguments | LoopbackArguments | NotContextIp | NotALiteral | BadLiteral

  function ParseCedar(l: Literal): Result<Prefix, DialError> {
    match l
    case NotAnIp => Err(BadLiteral)
    case Bare(a) => Ok(Masked(Prefix(a, Width(a))))
    case Cidr(a, len) => if len > Width(a) then Err(BadLiteral) else Ok(Masked(Prefix(a, len)))
  }

  const LOOPBACK4 := Prefix(V4(0x7f00_0000), 8)
  const LOOPBACK6 := Prefix(V6(1), 128)

  function TestPrefixes(t: Test): Result<seq<Prefix>, DialError> {
    match t
    case Or(left, right) =>
      (match TestPrefixes(left)
       case Err(e) => Err(e)
       case Ok(l) => match TestPrefixes(right) case Err(e) => Err(e) case Ok(r) => Ok(l + r))
    case InRange(args) =>
      if |args| != 2 then Err(InRangeArguments)
      else if !args[0].ContextIp? then Err(NotContextIp)
      else if !args[1].IpLiteral? then Err(NotALiteral)
      else (match ParseCedar(args[1].literal) case Err(e) => Err(e) case Ok(p) => Ok([p]))
    case Loopback(args) =>
      if |args| != 1 then Err(LoopbackArguments)
      else if !args[0].ContextIp? then Err(NotContextIp)
      else Ok([Masked(LOOPBACK4), Masked(LOOPBACK6)])
    case OtherTest(_) => Err(Unsupported)
  }

  predicate GoodLiteral(l: Literal) {
    l.NotAnIp? || IsAddr(l.addr)
  }

  /** Every address a test names is one. */
  predicate GoodTest(t: Test) {
    match t
    case Or(left, right) => GoodTest(left) && GoodTest(right)
    case InRange(args) => forall a :: a in args && a.IpLiteral? ==> GoodLiteral(a.literal)
    case Loopback(args) => true
    case OtherTest(_) => true
  }

  ghost predicate InLiteral(l: Literal, ip: Addr) {
    match l
    case NotAnIp => false
    case Bare(a) => ip == a
    case Cidr(a, len) => InNetwork(a, len, ip)
  }

  /** 127.0.0.0/8 for IPv4 and ::1 for IPv6, as Cedar defines it. */
  predicate IsLoopback(ip: Addr) {
    if ip.V4? then ip.bits / 0x100_0000 == 127 else ip.bits == 1
  }

  /** What the operator wrote, evaluated on one address. */
  ghost predicate Holds(t: Test, ip: Addr) {
    match t
    case Or(left, right) => Holds(left, ip) || Holds(right, ip)
    case InRange(args) => |args| == 2 && args[1].IpLiteral? && InLiteral(args[1].literal, ip)
    case Loopback(args) => IsLoopback(ip)
    case OtherTest(meaning) => meaning(ip)
  }

  /** The shapes the compiler takes: ip tests over context.ip and literals. */
  predicate Supported(t: Test) {
    match t
    case Or(left, right) => Supported(left) && Supported(right)
    case InRange(args) =>
      && |args| == 2 && args[0].ContextIp? && args[1].IpLiteral? && !args[1].literal.NotAnIp?
      && (args[1].literal.Cidr? ==> args[1].literal.len <= Width(args[1].literal.addr))
    case Loopback(args) => args == [ContextIp]
    case OtherTest(_) => false
  }

  ghost predicate InAny(ps: seq<Prefix>, ip: Addr) {
    exists p :: p in ps && Contains(p, ip)
  }

  lemma WholeWidth(base: Addr, ip: Addr)
    requires IsAddr(base) && IsAddr(ip)
    ensures InNetwork(base, Width(base), ip) <==> ip == base
  {
    hide Bit, Pow2;
    if InNetwork(base, Width(base), ip) { BitsDecide(base.bits, ip.bits, Width(base)); }
  }

  lemma LiteralExact(l: Literal, ip: Addr)
    requires GoodLiteral(l) && IsAddr(ip) && ParseCedar(l).Ok?
    ensures Contains(ParseCedar(l).value, ip) <==> InLiteral(l, ip)
  {
    hide Masked, Contains, InNetwork, IsAddr;
    match l
    case Bare(a) => WholeWidth(a, ip); ContainsExactly(a, Width(a), ip);
    case Cidr(a, len) => ContainsExactly(a, len, ip);
  }

  lemma LoopbackExact(ip: Addr)
    requires IsAddr(ip)
    ensures Contains(Masked(LOOPBACK4), ip) || Contains(Masked(LOOPBACK6), ip) <==> IsLoopback(ip)
  {
    hide Masked, Contains, InNetwork, Pow2, Shr;
    Powers();
    ShrIsDiv(ip.bits, 24);
    ShrIsDiv(0x7f00_0000, 24);
    WidePowers();
    ContainsExactly(LOOPBACK4.addr, 8, ip);
    ContainsExactly(LOOPBACK6.addr, 128, ip);
    NetworkIsRange(LOOPBACK4.addr, 8, ip);
    WholeWidth(LOOPBACK6.addr, ip);
  }

  /** The compiler takes exactly the supported tests, and the prefixes it
      yields contain an address exactly when the test holds of it. */
  lemma {:induction false} TestExact(t: Test, ip: Addr)
    requires GoodTest(t) && IsAddr(ip)
    ensures TestPrefixes(t).Ok? <==> Supported(t)
    ensures TestPrefixes(t).Ok? ==> (InAny(TestPrefixes(t).value, ip) <==> Holds(t, ip))
  {
    hide Masked, Contains, InNetwork, IsLoopback, IsAddr, InLiteral;
    match t
    case Or(left, right) =>
      TestExact(left, ip);
      TestExact(right, ip);
    case InRange(args) =>
      if Supported(t) {
        assert args[1] in args;
        LiteralExact(args[1].literal, ip);
        assert ParseCedar(args[1].literal).value in TestPrefixes(t).value;
      }
    case Loopback(args) =>
      if Supported(t) {
        LoopbackExact(ip);
        assert TestPrefixes(t).value == [Masked(LOOPBACK4), Masked(LOOPBACK6)];
        assert Masked(LOOPBACK4) in TestPrefixes(t).value && Masked(LOOPBACK6) in TestPrefixes(t).value;
      }
    case OtherTest(_) =>
  }

  // ------------------------------------------------------------------ rules

  /** A rule's action scope: `action`, `action == Action::"x"`, `action in
      Action::"x"` or `action in [Action::"x", ...]`, and whether it names
      dialAddress. */
  datatype ActionScope = AnyAction | Equals(dial: bool) | InOne(dial: bool) | InSet(dial: bool)

  datatype Condition = Condition(isWhen: bool, test: Test)

  datatype Policy = Policy(id: string, forbids: bool, action: ActionScope, constrained: bool, conditions: seq<Condition>)

  const ANY4 := Prefix(V4(0), 0)
  const ANY6 := Prefix(V6(0), 0)

  function CompileDialRule(p: Policy): Result<Option<seq<Prefix>>, DialError> {
    if p.action != Equals(true) then
      if p.action == ActionScope.InSet(true) then Err(DialError.InSet) else Ok(None)
    else if p.constrained then Err(Constrained)
    else if |p.conditions| == 0 then Ok(Some([Masked(ANY4), Masked(ANY6)]))
    else if |p.conditions| != 1 then Err(TooManyConditions)
    else if !p.conditions[0].isWhen then Err(NotWhen)
    else match TestPrefixes(p.conditions[0].test) case Err(e) => Err(e) case Ok(ps) => Ok(Some(ps))
  }

  /** The rules the compiler takes: none that lists dialAddress among actions,
      and one on dialAddress itself only if it constrains neither principal nor
      resource and has at most one condition, a `when` over ip tests. */
  predicate Accepted(p: Policy) {
    && p.action != ActionScope.InSet(true)
    && (p.action == Equals(true) ==>
          && !p.constrained && |p.conditions| <= 1
          && forall i :: 0 <= i < |p.conditions| ==> p.conditions[i].isWhen && Supported(p.conditions[i].test))
  }

  lemma {:induction false} TestAccepted(t: Test)
    ensures TestPrefixes(t).Ok? <==> Supported(t)
  {
    hide Masked;
    if t.Or? {
      TestAccepted(t.left);
      TestAccepted(t.right);
    }
  }

  /** And one yields prefixes, rather than being another action's, exactly when
      its scope equals dialAddress. */
  lemma AcceptedExactly(p: Policy)
    ensures CompileDialRule(p).Ok? <==> Accepted(p)
    ensures Accepted(p) ==> (CompileDialRule(p).value.Some? <==> p.action == Equals(true))
  {
    hide Masked, TestPrefixes, Supported;
    if |p.conditions| == 1 { TestAccepted(p.conditions[0].test); }
  }

  ghost predicate GoodPolicy(p: Policy) {
    forall c :: c in p.conditions ==> GoodTest(c.test)
  }

  /** Whether Cedar's scope of a rule covers dialAddress. */
  predicate Covers(scope: ActionScope) {
    scope.AnyAction? || scope.dial
  }

  /** Whether Cedar applies a rule to the dial of an address, which has neither
      a principal nor a resource. */
  ghost predicate Applies(p: Policy, ip: Addr) {
    Covers(p.action) && !p.constrained && forall c :: c in p.conditions ==> Holds(c.test, ip) == c.isWhen
  }

  /** A rule that covers dialAddress in a shape the compiler takes for another
      action's: it yields nothing and is no error. */
  predicate Skipped(p: Policy) {
    p.action.AnyAction? || p.action == InOne(true)
  }

  ghost predicate Yields(p: Policy, x: Prefix) {
    CompileDialRule(p).Ok? && CompileDialRule(p).value.Some? && x in CompileDialRule(p).value.value
  }

  lemma AnyExact(ip: Addr)
    requires IsAddr(ip)
    ensures InAny([Masked(ANY4), Masked(ANY6)], ip)
  {
    hide Masked, Contains, Pow2, Bit;
    WidePowers();
    ContainsExactly(ANY4.addr, 0, ip);
    ContainsExactly(ANY6.addr, 0, ip);
    assert Masked(ANY4) in [Masked(ANY4), Masked(ANY6)] && Masked(ANY6) in [Masked(ANY4), Masked(ANY6)];
  }

  ghost predicate Tables(p: Policy, ip: Addr) {
    exists x :: Yields(p, x) && Contains(x, ip)
  }

  /** One rule: some prefix it yields contains an address exactly when the rule
      applies to it and is not skipped. So a rule compiles to less than it
      means exactly when it is skipped and applies. */
  lemma RuleExact(p: Policy, ip: Addr)
    requires GoodPolicy(p) && CompileDialRule(p).Ok? && IsAddr(ip)
    ensures Tables(p, ip) <==> Applies(p, ip) && !Skipped(p)
    ensures (Tables(p, ip) <==> Applies(p, ip)) <==> !(Skipped(p) && Applies(p, ip))
  {
    hide Masked, Contains, IsAddr, TestPrefixes, Holds, GoodTest;
    if p.action == Equals(true) {
      if |p.conditions| == 0 {
        AnyExact(ip);
        var x :| x in [Masked(ANY4), Masked(ANY6)] && Contains(x, ip);
        assert Yields(p, x);
      } else {
        var c := p.conditions[0];
        assert c in p.conditions && p.conditions == [c];
        TestExact(c.test, ip);
        assert forall x :: Yields(p, x) <==> x in TestPrefixes(c.test).value;
      }
    }
  }

  datatype IpRules = IpRules(blocked: seq<Prefix>, allowed: seq<Prefix>)

  ghost predicate YieldedBy(policies: seq<Policy>, forbids: bool, x: Prefix) {
    exists p :: p in policies && p.forbids == forbids && Yields(p, x)
  }

  /** The table holds what the forbid rules and the permit rules yield, and
      nothing else. */
  ghost predicate Tabled(rules: IpRules, policies: seq<Policy>) {
    && (forall p :: p in policies ==> CompileDialRule(p).Ok?)
    && (forall x :: x in rules.blocked <==> YieldedBy(policies, true, x))
    && (forall x :: x in rules.allowed <==> YieldedBy(policies, false, x))
  }

  /** The error names a malformed rule, the one whose id sorts first. */
  ghost predicate FirstMalformed(e: (string, DialError), policies: seq<Policy>) {
    && (exists p :: p in policies && p.id == e.0 && CompileDialRule(p) == Err(e.1))
    && (forall p :: p in policies && CompileDialRule(p).Err? ==> Order.Leq(e.0, p.id))
  }

  method CompileIpRules(policies: seq<Policy>) returns (r: Result<IpRules, (string, DialError)>)
    ensures r.Ok? <==> forall p :: p in policies ==> Accepted(p)
    ensures r.Ok? ==> Tabled(r.value, policies)
    ensures r.Err? ==> FirstMalformed(r.error, policies)
  {
    hide CompileDialRule, Accepted, Order.Leq, Order.SortBy;
    forall p ensures CompileDialRule(p).Ok? <==> Accepted(p) { AcceptedExactly(p); }
    var byId := (p: Policy) => p.id;
    var sorted := Order.SortBy(byId, policies);
    Order.SortBySorts(byId, policies);
    forall p ensures p in sorted <==> p in policies { Order.SameMembers(sorted, policies, p); }
    var rules, i := IpRules([], []), 0;
    while i < |sorted|
      invariant i <= |sorted|
      invariant Tabled(rules, sorted[..i])
    {
      var p := sorted[i];
      var done := sorted[..i];
      assert sorted[..i + 1] == done + [p];
      i := i + 1;
      var compiled := CompileDialRule(p);
      if compiled.Err? {
        FirstInOrder(sorted, i - 1, policies);
        return Err((p.id, compiled.error));
      }
      if compiled.value.None? {
        NothingYielded(rules, done, p);
        continue;
      }
      var prefixes := compiled.value.value;
      Extended(rules, done, p, prefixes);
      if p.forbids {
        rules := rules.(blocked := rules.blocked + prefixes);
      } else {
        rules := rules.(allowed := rules.allowed + prefixes);
      }
    }
    assert sorted[..i] == sorted;
    SameTable(rules, sorted, policies);
    r := Ok(rules);
  }

  lemma FirstInOrder(sorted: seq<Policy>, i: nat, policies: seq<Policy>)
    requires i < |sorted| && Order.Sorted((p: Policy) => p.id, sorted)
    requires forall p :: p in sorted <==> p in policies
    requires CompileDialRule(sorted[i]).Err? && forall p :: p in sorted[..i] ==> CompileDialRule(p).Ok?
    ensures FirstMalformed((sorted[i].id, CompileDialRule(sorted[i]).error), policies)
  {
    hide CompileDialRule, Order.Leq;
    Order.LeqTotal(sorted[i].id, sorted[i].id);
    forall k | 0 <= k < i ensures CompileDialRule(sorted[k]).Ok? { assert sorted[..i][k] == sorted[k]; }
    forall p | p in policies && CompileDialRule(p).Err? ensures Order.Leq(sorted[i].id, p.id) {
      var j :| 0 <= j < |sorted| && sorted[j] == p;
      assert j >= i;
    }
  }

  lemma YieldedAppend(done: seq<Policy>, p: Policy, forbids: bool, x: Prefix)
    ensures YieldedBy(done + [p], forbids, x) <==> YieldedBy(done, forbids, x) || (p.forbids == forbids && Yields(p, x))
  {
    hide Yields;
    assert p in done + [p] && forall q :: q in done ==> q in done + [p];
  }

  lemma NothingYielded(rules: IpRules, done: seq<Policy>, p: Policy)
    requires Tabled(rules, done) && CompileDialRule(p) == Ok(None)
    ensures Tabled(rules, done + [p])
  {
    hide CompileDialRule, YieldedBy;
    forall x, b: bool ensures YieldedBy(done + [p], b, x) <==> YieldedBy(done, b, x) { YieldedAppend(done, p, b, x); }
  }

  lemma Extended(rules: IpRules, done: seq<Policy>, p: Policy, prefixes: seq<Prefix>)
    requires Tabled(rules, done) && CompileDialRule(p) == Ok(Some(prefixes))
    ensures p.forbids ==> Tabled(rules.(blocked := rules.blocked + prefixes), done + [p])
    ensures !p.forbids ==> Tabled(rules.(allowed := rules.allowed + prefixes), done + [p])
  {
    hide CompileDialRule, YieldedBy;
    forall x, b: bool
      ensures YieldedBy(done + [p], b, x) <==> YieldedBy(done, b, x) || (p.forbids == b && x in prefixes)
    {
      YieldedAppend(done, p, b, x);
    }
  }

  lemma SameTable(rules: IpRules, ps: seq<Policy>, qs: seq<Policy>)
    requires Tabled(rules, ps) && forall p :: p in ps <==> p in qs
    ensures Tabled(rules, qs)
  {
    hide CompileDialRule, Yields;
    forall x, b: bool ensures YieldedBy(ps, b, x) <==> YieldedBy(qs, b, x) {}
  }

  // --------------------------------------------------------------- decision

  /** The default block list, as base addresses and lengths. */
  const DEFAULTS: seq<Prefix> := [
    Prefix(V4(0x0000_0000), 8),
    Prefix(V4(0x0a00_0000), 8),
    Prefix(V4(0x6440_0000), 10),
    Prefix(V4(0x7f00_0000), 8),
    Prefix(V4(0xa9fe_0000), 16),
    Prefix(V4(0xac10_0000), 12),
    Prefix(V4(0xc0a8_0000), 16),
    Prefix(V4(0xe000_0000), 4),
    Prefix(V4(0xf000_0000), 4),
    Prefix(V6(0), 96),
    Prefix(V6(0x0064_ff9b_0000_0000_0000_0000_0000_0000), 96),
    Prefix(V6(0xfc00_0000_0000_0000_0000_0000_0000_0000), 7),
    Prefix(V6(0xfe80_0000_0000_0000_0000_0000_0000_0000), 10),
    Prefix(V6(0xff00_0000_0000_0000_0000_0000_0000_0000), 8)
  ]

  function MaskedAll(ps: seq<Prefix>): (r: seq<Prefix>)
    ensures |r| == |ps| && forall i :: 0 <= i < |r| ==> r[i] == Masked(ps[i])
  {
    seq(|ps|, i requires 0 <= i < |ps| => Masked(ps[i]))
  }

  /** `to_ipv4_mapped`: ::ffff:0:0/96, section 2.5.5.2 of RFC 4291 */
  function Unmap(ip: Addr): Addr {
    if ip.V6? && ip.bits / 0x1_0000_0000 == 0xffff then V4(ip.bits % 0x1_0000_0000) else ip
  }

  /** `iter().find(|p| p.contains(ip))` */
  function FindContaining(ps: seq<Prefix>, ip: Addr): Option<Prefix> {
    if ps == [] then None else if Contains(ps[0], ip) then Some(ps[0]) else FindContaining(ps[1..], ip)
  }

  function BlockedBy(rules: IpRules, ip: Addr): Option<Prefix> {
    var a := Unmap(ip);
    var explicit := FindContaining(rules.blocked, a);
    if explicit.Some? then explicit
    else if FindContaining(rules.allowed, a).Some? then None
    else FindContaining(MaskedAll(DEFAULTS), a)
  }

  ghost predicate InDefaults(ip: Addr) {
    exists d :: d in DEFAULTS && InNetwork(d.addr, d.len, ip)
  }

  /** Some rule of that effect applies, skipped ones counted or not. */
  ghost predicate AnyApplies(policies: seq<Policy>, forbids: bool, skipped: bool, ip: Addr) {
    exists p :: p in policies && p.forbids == forbids && Applies(p, ip) && (skipped || !Skipped(p))
  }

  /** The decision, read off the rules: forbids win over permits, permits over
      the defaults. */
  ghost predicate Refused(policies: seq<Policy>, skipped: bool, ip: Addr) {
    AnyApplies(policies, true, skipped, ip) || (!AnyApplies(policies, false, skipped, ip) && InDefaults(ip))
  }

  /** A skipped rule that would have changed the decision: a forbid on an
      address that is let through, or a permit, beside no forbid, on an address
      the defaults refuse. */
  ghost predicate Overlooked(policies: seq<Policy>, ip: Addr) {
    || (AnyApplies(policies, true, true, ip) && !Refused(policies, false, ip))
    || (AnyApplies(policies, false, true, ip) && !AnyApplies(policies, true, true, ip) && Refused(policies, false, ip))
  }

  lemma {:induction false} FindExact(ps: seq<Prefix>, ip: Addr)
    ensures FindContaining(ps, ip).Some? <==> InAny(ps, ip)
    ensures FindContaining(ps, ip).Some? ==> FindContaining(ps, ip).value in ps && Contains(FindContaining(ps, ip).value, ip)
  {
    hide Contains;
    if ps != [] {
      FindExact(ps[1..], ip);
      assert ps == [ps[0]] + ps[1..];
    }
  }

  lemma UnmapIsAddr(ip: Addr)
    requires IsAddr(ip)
    ensures IsAddr(Unmap(ip))
  {
    hide Pow2;
    Powers();
  }

  lemma {:induction false} DefaultsAreAddrs()
    ensures forall d :: d in DEFAULTS ==> IsAddr(d.addr) && d.len <= Width(d.addr)
  {
    hide Pow2;
    Powers();
    WidePowers();
  }

  lemma DefaultsExact(ip: Addr)
    requires IsAddr(ip)
    ensures InAny(MaskedAll(DEFAULTS), ip) <==> InDefaults(ip)
  {
    hide Contains, Masked, IsAddr, InNetwork, DEFAULTS;
    DefaultsAreAddrs();
    var ms := MaskedAll(DEFAULTS);
    forall i | 0 <= i < |DEFAULTS| ensures Contains(ms[i], ip) <==> InNetwork(DEFAULTS[i].addr, DEFAULTS[i].len, ip) {
      assert DEFAULTS[i] in DEFAULTS;
      ContainsExactly(DEFAULTS[i].addr, DEFAULTS[i].len, ip);
    }
    if InAny(ms, ip) {
      var i :| 0 <= i < |ms| && Contains(ms[i], ip);
      assert DEFAULTS[i] in DEFAULTS;
    }
    if InDefaults(ip) {
      var i :| 0 <= i < |DEFAULTS| && InNetwork(DEFAULTS[i].addr, DEFAULTS[i].len, ip);
      assert ms[i] in ms;
    }
  }

  lemma TableExact(xs: seq<Prefix>, policies: seq<Policy>, forbids: bool, ip: Addr)
    requires forall p :: p in policies ==> GoodPolicy(p) && CompileDialRule(p).Ok?
    requires forall x :: x in xs <==> YieldedBy(policies, forbids, x)
    requires IsAddr(ip)
    ensures InAny(xs, ip) <==> AnyApplies(policies, forbids, false, ip)
  {
    hide Contains, Applies, Skipped, Yields, GoodPolicy, CompileDialRule, IsAddr;
    if InAny(xs, ip) {
      var x :| x in xs && Contains(x, ip);
      assert YieldedBy(policies, forbids, x);
      var p :| p in policies && p.forbids == forbids && Yields(p, x);
      assert Tables(p, ip);
      RuleExact(p, ip);
    }
    if p :| p in policies && p.forbids == forbids && Applies(p, ip) && !Skipped(p) {
      RuleExact(p, ip);
      var x :| Yields(p, x) && Contains(x, ip);
      assert YieldedBy(policies, forbids, x);
    }
  }

  /** The table refuses an address exactly when the rules that are not skipped
      and the default list do, an IPv4-mapped address being judged as the IPv4
      address it carries. So compilation preserves the meaning of all the rules
      exactly on the addresses for which no skipped rule is overlooked; on every
      address when none is skipped. */
  lemma DecisionExact(policies: seq<Policy>, rules: IpRules, ip: Addr)
    requires Tabled(rules, policies) && IsAddr(ip) && forall p :: p in policies ==> GoodPolicy(p)
    ensures BlockedBy(rules, ip).Some? <==> Refused(policies, false, Unmap(ip))
    ensures (BlockedBy(rules, ip).Some? <==> Refused(policies, true, Unmap(ip))) <==> !Overlooked(policies, Unmap(ip))
    ensures (forall p :: p in policies ==> !Skipped(p)) ==> !Overlooked(policies, Unmap(ip))
    ensures BlockedBy(rules, ip).Some? ==> Contains(BlockedBy(rules, ip).value, Unmap(ip))
  {
    hide Contains, InAny, Yields, GoodPolicy, CompileDialRule, IsAddr, InDefaults, Unmap, FindContaining, MaskedAll, DEFAULTS,
      AnyApplies;
    var a := Unmap(ip);
    UnmapIsAddr(ip);
    FindExact(rules.blocked, a);
    FindExact(rules.allowed, a);
    FindExact(MaskedAll(DEFAULTS), a);
    TableExact(rules.blocked, policies, true, a);
    TableExact(rules.allowed, policies, false, a);
    DefaultsExact(a);
    SkippingDrops(policies, true, a);
    SkippingDrops(policies, false, a);
  }

  lemma SkippingDrops(policies: seq<Policy>, forbids: bool, ip: Addr)
    ensures AnyApplies(policies, forbids, false, ip) ==> AnyApplies(policies, forbids, true, ip)
    ensures (forall p :: p in policies ==> !Skipped(p)) && AnyApplies(policies, forbids, true, ip) ==>
              AnyApplies(policies, forbids, false, ip)
  {
    hide Applies, Skipped;
  }

  /** A forbid over everything, in either skipped shape: it is no error, its
      table is empty, and every address off the default list is let through
      that the rule refuses. */
  lemma SkippedForbidRefusesNothing(p: Policy, ip: Addr)
    requires p.forbids && !p.constrained && p.conditions == [] && (p.action == AnyAction || p.action == InOne(true))
    requires IsAddr(ip) && !InDefaults(Unmap(ip))
    ensures Tabled(IpRules([], []), [p])
    ensures BlockedBy(IpRules([], []), ip) == None && Refused([p], true, Unmap(ip))
  {
    assert p in [p] && GoodPolicy(p);
    assert Applies(p, Unmap(ip));
    NothingTabled(p);
    hide Masked, Contains, InDefaults, Unmap, MaskedAll, DEFAULTS, FindContaining, Tabled;
    assert AnyApplies([p], true, true, Unmap(ip));
    DefaultsExact(Unmap(ip)) by { UnmapIsAddr(ip); }
    FindExact(MaskedAll(DEFAULTS), Unmap(ip));
    FindExact([], Unmap(ip));
  }

  lemma NothingTabled(p: Policy)
    requires CompileDialRule(p) == Ok(None)
    ensures Tabled(IpRules([], []), [p])
  {
    hide CompileDialRule;
    forall x, b: bool ensures !YieldedBy([p], b, x) {}
  }

  /** Neither the order of the rules nor how often one is written matters. */
  lemma RuleOrderIsIrrelevant(ps: seq<Policy>, qs: seq<Policy>, r: IpRules, s: IpRules, ip: Addr)
    requires (forall p :: p in ps <==> p in qs) && Tabled(r, ps) && Tabled(s, qs)
    ensures BlockedBy(r, ip).Some? <==> BlockedBy(s, ip).Some?
  {
    hide Contains, Yields, CompileDialRule, Unmap, FindContaining, MaskedAll, DEFAULTS;
    SameTable(r, ps, qs);
    var a := Unmap(ip);
    assert forall x :: (x in r.blocked <==> x in s.blocked) && (x in r.allowed <==> x in s.allowed);
    FindExact(r.blocked, a);
    FindExact(s.blocked, a);
    FindExact(r.allowed, a);
    FindExact(s.allowed, a);
  }

  lemma MappedIsJudgedAsIPv4(rules: IpRules, b: nat)
    requires b < 0x1_0000_0000
    ensures BlockedBy(rules, V6(0xffff * 0x1_0000_0000 + b)) == BlockedBy(rules, V4(b))
  {
    hide FindContaining, MaskedAll, DEFAULTS;
    assert Unmap(V6(0xffff * 0x1_0000_0000 + b)) == V4(b);
  }

  /** Contains no address as it is judged. */
  ghost predicate Inert(p: Prefix) {
    forall ip: Addr :: IsAddr(ip) ==> !Contains(p, Unmap(ip))
  }

  predicate IsMapped(a: Addr) {
    a.V6? && a.bits / 0x1_0000_0000 == 0xffff
  }

  /** So a range contains no address as it is judged exactly when it lies
      within the mapped form, though it contains the address it is written
      with. */
  lemma MappedRangesAreInert(base: Addr, len: nat)
    requires IsAddr(base) && len <= Width(base)
    ensures Contains(Masked(Prefix(base, len)), base)
    ensures Inert(Masked(Prefix(base, len))) <==> IsMapped(base) && len >= 96
  {
    hide Contains, Masked, Bit, Pow2, Shr, IsAddr, IsMapped, Unmap, InNetwork;
    var p := Masked(Prefix(base, len));
    OwnNetwork(base, len);
    ContainsExactly(base, len, base);
    if !IsMapped(base) {
      UnmapKeeps(base);
    } else if len < 96 {
      var ip := BesideMapped(base, len);
      ContainsExactly(base, len, ip);
    } else {
      forall ip: Addr | IsAddr(ip) ensures !Contains(p, Unmap(ip)) { WithinMapped(base, len, ip); }
    }
  }

  lemma OwnNetwork(base: Addr, len: nat)
    ensures InNetwork(base, len, base)
  {}

  lemma UnmapKeeps(a: Addr)
    requires !IsMapped(a)
    ensures Unmap(a) == a
  {}

  lemma WithinMapped(base: Addr, len: nat, ip: Addr)
    requires IsAddr(base) && IsAddr(ip) && IsMapped(base) && 96 <= len <= 128
    ensures !Contains(Masked(Prefix(base, len)), Unmap(ip))
  {
    hide Contains, Masked, Bit, Pow2, Shr, IsAddr;
    Powers();
    var a := Unmap(ip);
    UnmapIsAddr(ip);
    ContainsExactly(base, len, a);
    if InNetwork(base, len, a) {
      assert SameBits(a.bits, base.bits, 32, 128);
      Words(a, base.bits);
      SameHighBits(a.bits, base.bits, 32, 128);
      ShrIsDiv(a.bits, 32);
      ShrIsDiv(base.bits, 32);
    }
  }

  /** Fewer leading bits leave the last bit of the mapped marker free. */
  lemma BesideMapped(base: Addr, len: nat) returns (ip: Addr)
    requires IsAddr(base) && IsMapped(base) && len < 96
    ensures IsAddr(ip) && Unmap(ip) == ip && InNetwork(base, len, ip)
  {
    ip := V6(base.bits - 0x1_0000_0000);
    assert ip.bits / 0x1_0000_0000 == 0xfffe;
    hide Bit, Pow2, Shr;
    Powers();
    OneMore();
    ShrIsDiv(ip.bits, 33);
    ShrIsDiv(base.bits, 33);
    assert base.bits / 0x2_0000_0000 == 0x7fff == ip.bits / 0x2_0000_0000;
    SameHighBits(ip.bits, base.bits, 33, 128);
    assert SameBits(ip.bits, base.bits, 33, 128);
  }

  lemma OneMore()
    ensures Pow2(33) == 0x2_0000_0000
  {
    Powers();
  }

  lemma Words(a: Addr, base: nat)
    requires IsAddr(a) && a.V6? && IsAddr(V6(base))
    ensures a.bits < Pow2(128) && base < Pow2(128)
  {}

  // ----------------------------------------- the default list, in plain terms

  /** The blocked IPv4 ranges: 0/8, 10/8, 127/8, 100.64/10, 169.254/16,
      192.168/16, 172.16/12 and everything from 224.0.0.0 up. */
  predicate Reserved4(b: nat) {
    || b / 0x100_0000 in {0, 10, 127}
    || b / 0x40_0000 == 100 * 4 + 1
    || b / 0x1_0000 in {169 * 256 + 254, 192 * 256 + 168}
    || b / 0x10_0000 == 172 * 16 + 1
    || b >= 224 * 0x100_0000
  }

  predicate Reserved6(b: nat) {
    || b / 0x1_0000_0000 in {0, 0x64_ff9b_0000_0000_0000_0000}
    || b / 0x200_0000_0000_0000_0000_0000_0000_0000 == 0x7e
    || b / 0x40_0000_0000_0000_0000_0000_0000_0000 == 0x3fa
    || b / 0x100_0000_0000_0000_0000_0000_0000_0000 == 0xff
  }

  lemma Range4(base: nat, len: nat, p: nat, b: nat)
    requires IsAddr(V4(base)) && IsAddr(V4(b)) && len <= 32 && p == Pow2(32 - len)
    ensures InNetwork(V4(base), len, V4(b)) <==> b / p == base / p
  {
    hide InNetwork, Pow2, Shr, IsAddr;
    NetworkIsRange(V4(base), len, V4(b));
    ShrIsDiv(b, 32 - len);
    ShrIsDiv(base, 32 - len);
  }

  lemma Range6(base: nat, len: nat, p: nat, b: nat)
    requires IsAddr(V6(base)) && IsAddr(V6(b)) && len <= 128 && p == Pow2(128 - len)
    ensures InNetwork(V6(base), len, V6(b)) <==> b / p == base / p
  {
    hide InNetwork, Pow2, Shr, IsAddr;
    NetworkIsRange(V6(base), len, V6(b));
    ShrIsDiv(b, 128 - len);
    ShrIsDiv(base, 128 - len);
  }

  lemma Listed(ip: Addr)
    ensures InDefaults(ip) <==> exists i :: 0 <= i < 14 && InNetwork(DEFAULTS[i].addr, DEFAULTS[i].len, ip)
  {
    hide InNetwork, DEFAULTS;
    FourteenDefaults();
    if InDefaults(ip) {
      var d :| d in DEFAULTS && InNetwork(d.addr, d.len, ip);
      var i :| 0 <= i < |DEFAULTS| && DEFAULTS[i] == d;
    }
    if i :| 0 <= i < 14 && InNetwork(DEFAULTS[i].addr, DEFAULTS[i].len, ip) { assert DEFAULTS[i] in DEFAULTS; }
  }

  lemma FourteenDefaults()
    ensures |DEFAULTS| == 14
  {}

  lemma Listed4(b: nat)
    ensures var ip := V4(b);
            InDefaults(ip) <==>
            || InNetwork(V4(0x0000_0000), 8, ip) || InNetwork(V4(0x0a00_0000), 8, ip) || InNetwork(V4(0x6440_0000), 10, ip)
            || InNetwork(V4(0x7f00_0000), 8, ip) || InNetwork(V4(0xa9fe_0000), 16, ip) || InNetwork(V4(0xac10_0000), 12, ip)
            || InNetwork(V4(0xc0a8_0000), 16, ip) || InNetwork(V4(0xe000_0000), 4, ip) || InNetwork(V4(0xf000_0000), 4, ip)
  {
    hide SameBits, InDefaults;
    Listed(V4(b));
    var ds := DEFAULTS;
    assert ds[0].len == 8 && ds[1].len == 8 && ds[2].len == 10 && ds[3].len == 8 && ds[4].len == 16 && ds[5].len == 12;
    assert ds[6].len == 16 && ds[7].len == 4 && ds[8].len == 4;
  }

  lemma Listed6(b: nat)
    ensures var ip := V6(b);
            InDefaults(ip) <==>
            || InNetwork(V6(0), 96, ip) || InNetwork(V6(0x0064_ff9b_0000_0000_0000_0000_0000_0000), 96, ip)
            || InNetwork(V6(0xfc00_0000_0000_0000_0000_0000_0000_0000), 7, ip)
            || InNetwork(V6(0xfe80_0000_0000_0000_0000_0000_0000_0000), 10, ip)
            || InNetwork(V6(0xff00_0000_0000_0000_0000_0000_0000_0000), 8, ip)
  {
    hide SameBits, InDefaults;
    Listed(V6(b));
    var ds := DEFAULTS;
    assert ds[9].len == 96 && ds[10].len == 96 && ds[11].len == 7 && ds[12].len == 10 && ds[13].len == 8;
  }

  lemma Defaults4(b: nat)
    requires IsAddr(V4(b))
    ensures InDefaults(V4(b)) <==> Reserved4(b)
  {
    hide InNetwork, Pow2, InDefaults;
    Powers();
    Listed4(b);
    Range4(0x0000_0000, 8, 0x100_0000, b);
    Range4(0x0a00_0000, 8, 0x100_0000, b);
    Range4(0x6440_0000, 10, 0x40_0000, b);
    Range4(0x7f00_0000, 8, 0x100_0000, b);
    Range4(0xa9fe_0000, 16, 0x1_0000, b);
    Range4(0xac10_0000, 12, 0x10_0000, b);
    Range4(0xc0a8_0000, 16, 0x1_0000, b);
    Range4(0xe000_0000, 4, 0x1000_0000, b);
    Range4(0xf000_0000, 4, 0x1000_0000, b);
  }

  lemma Defaults6(b: nat)
    requires IsAddr(V6(b))
    ensures InDefaults(V6(b)) <==> Reserved6(b)
  {
    hide InNetwork, Pow2, InDefaults;
    Powers();
    WidePowers();
    Listed6(b);
    Range6(0, 96, 0x1_0000_0000, b);
    Range6(0x0064_ff9b_0000_0000_0000_0000_0000_0000, 96, 0x1_0000_0000, b);
    Range6(0xfc00_0000_0000_0000_0000_0000_0000_0000, 7, 0x200_0000_0000_0000_0000_0000_0000_0000, b);
    Range6(0xfe80_0000_0000_0000_0000_0000_0000_0000, 10, 0x40_0000_0000_0000_0000_0000_0000_0000, b);
    Range6(0xff00_0000_0000_0000_0000_0000_0000_0000, 8, 0x100_0000_0000_0000_0000_0000_0000_0000, b);
  }
}
