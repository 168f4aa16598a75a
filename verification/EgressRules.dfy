/** HTTP egress rules: their shape (crates/function/src/egress_rules.rs), the
    coverage check a manifest's requirements are held against
    (crates/function/src/manifest.rs) and the compiled grant a run's requests
    are admitted by (crates/function/src/egress.rs). */
module EgressRules {
  import opened Base
  import Location

  // ------------------------------------------------------------ host texts

  function Lower(c: char): char {
    if 'A' <= c <= 'Z' then c + 32 as char else c
  }

  function Upper(c: char): char {
    if 'a' <= c <= 'z' then c - 32 as char else c
  }

  function LowerText(s: string): (r: string)
    ensures |r| == |s| && forall i :: 0 <= i < |s| ==> r[i] == Lower(s[i])
  {
    seq(|s|, i requires 0 <= i < |s| => Lower(s[i]))
  }

  function UpperText(s: string): (r: string)
    ensures |r| == |s| && forall i :: 0 <= i < |s| ==> r[i] == Upper(s[i])
  {
    seq(|s|, i requires 0 <= i < |s| => Upper(s[i]))
  }

  /** `char::is_whitespace`: Unicode's White_Space property. */
  predicate IsSpace(c: char) {
    var n := c as int;
    || 0x09 <= n <= 0x0d || n == 0x20 || n == 0x85 || n == 0xa0 || n == 0x1680 || 0x2000 <= n <= 0x200a
    || n == 0x2028 || n == 0x2029 || n == 0x202f || n == 0x205f || n == 0x3000
  }

  function TrimStart(s: string): (r: string)
    ensures |r| <= |s| && r == s[|s| - |r|..]
    ensures r != "" ==> !IsSpace(r[0])
  {
    if s != "" && IsSpace(s[0]) then TrimStart(s[1..]) else s
  }

  function TrimEnd(s: string): (r: string)
    ensures r <= s && (r != "" ==> !IsSpace(r[|r| - 1]))
  {
    if s != "" && IsSpace(s[|s| - 1]) then TrimEnd(s[..|s| - 1]) else s
  }

  function Trim(s: string): string {
    TrimEnd(TrimStart(s))
  }

  /** `trim_end_matches('.')` */
  function TrimDots(s: string): (r: string)
    ensures r <= s && (r != "" ==> r[|r| - 1] != '.')
  {
    if s != "" && s[|s| - 1] == '.' then TrimDots(s[..|s| - 1]) else s
  }

  function NormalizeHost(h: string): string {
    TrimDots(LowerText(Trim(h)))
  }

  predicate HasReserved(s: string) {
    exists i :: 0 <= i < |s| && s[i] in ['*', '/', ':', '%', '@', ' ', '\t', '\n', '[', ']']
  }

  predicate ValidHost(h: string) {
    NormalizeHost(h) != "" && !HasReserved(NormalizeHost(h))
  }

  predicate EndsWith(s: string, t: string) {
    |t| <= |s| && s[|s| - |t|..] == t
  }

  /** `egress_rules::pattern_suffix` */
  function PatternSuffix(pattern: string): Option<string> {
    var p := NormalizeHost(pattern);
    if "*." <= p && p[2..] != "" && !HasReserved(p[1..]) then Some(p[1..]) else None
  }

  predicate ValidHostPattern(p: string) {
    var s := PatternSuffix(p);
    s.Some? && s.value != "" && ValidHost(s.value[1..])
  }

  predicate MatchesSuffix(host: string, suffix: string) {
    |host| > |suffix| && EndsWith(host, suffix)
  }

  predicate PatternCovers(pattern: string, host: string) {
    var s := PatternSuffix(pattern);
    s.Some? && MatchesSuffix(NormalizeHost(host), s.value)
  }

  predicate PatternUnder(pattern: string, granted: string) {
    var s, over := PatternSuffix(pattern), PatternSuffix(granted);
    s.Some? && over.Some? && (s.value == over.value || EndsWith(s.value, over.value))
  }

  // ------------------------------------------------------------------ rules

  datatype HttpRule = HttpRule(host: string, hostPattern: string, methods: seq<string>, pathPrefix: string)

  const METHODS: seq<string> := ["GET", "HEAD", "POST", "PUT", "PATCH", "DELETE", "OPTIONS"]

  /** `validate_rules`, for one rule. */
  predicate ShapeValid(r: HttpRule) {
    && (r.host == "") != (r.hostPattern == "")
    && (r.host != "" ==> ValidHost(r.host))
    && (r.hostPattern != "" ==> ValidHostPattern(r.hostPattern))
    && r.methods != []
    && (forall m :: m in r.methods ==> m in METHODS)
    && (r.pathPrefix != "" ==> r.pathPrefix[0] == '/')
    && Location.NormalizedPath(r.pathPrefix)
  }

  // --------------------------------------------------------------- coverage

  predicate EqIgnoreCase(a: string, b: string) {
    LowerText(a) == LowerText(b)
  }

  predicate HostCovered(required: HttpRule, granted: HttpRule) {
    if required.host != "" then
      if granted.host != "" then EqIgnoreCase(TrimDots(granted.host), TrimDots(required.host))
      else PatternCovers(granted.hostPattern, required.host)
    else
      granted.hostPattern != "" && PatternUnder(required.hostPattern, granted.hostPattern)
  }

  predicate MethodsCovered(required: seq<string>, granted: seq<string>) {
    forall m :: m in required ==> exists g :: g in granted && EqIgnoreCase(g, m)
  }

  predicate CoveredBy(required: HttpRule, g: HttpRule) {
    HostCovered(required, g) && MethodsCovered(required.methods, g.methods)
    && (g.pathPrefix == "" || g.pathPrefix <= required.pathPrefix)
  }

  predicate Covered(required: HttpRule, granted: seq<HttpRule>) {
    exists g :: g in granted && CoveredBy(required, g)
  }

  // -------------------------------------------------------------- admission

  datatype CompiledRule = CompiledRule(host: string, suffix: string, methods: seq<string>, pathPrefix: string)

  datatype GrantError = BadPathPrefix(index: nat) | BadHost(index: nat) | BadPattern(index: nat)

  /** `egress::pattern_suffix` */
  function GrantSuffix(pattern: string): Option<string> {
    var p := NormalizeHost(pattern);
    if "*" <= p && "." <= p[1..] then Some(p[1..]) else None
  }

  function UpperAll(methods: seq<string>): (r: seq<string>)
    ensures |r| == |methods| && forall i :: 0 <= i < |r| ==> r[i] == UpperText(methods[i])
  {
    seq(|methods|, i requires 0 <= i < |methods| => UpperText(methods[i]))
  }

  function CompileRule(r: HttpRule, index: nat): Result<CompiledRule, GrantError> {
    if r.pathPrefix != "" && !Location.NormalizedPath(r.pathPrefix) then Err(BadPathPrefix(index))
    else if r.host != "" then
      if !ValidHost(r.host) then Err(BadHost(index))
      else Ok(CompiledRule(NormalizeHost(r.host), "", UpperAll(r.methods), r.pathPrefix))
    else
      match GrantSuffix(r.hostPattern)
      case None => Err(BadPattern(index))
      case Some(s) => Ok(CompiledRule("", s, UpperAll(r.methods), r.pathPrefix))
  }

  /** The first refusal, or every rule compiled in order. */
  function CompileFrom(rules: seq<HttpRule>, index: nat): Result<seq<CompiledRule>, GrantError>
    requires index <= |rules|
    decreases |rules| - index
  {
    if index == |rules| then Ok([])
    else
      match CompileRule(rules[index], index)
      case Err(e) => Err(e)
      case Ok(c) => match CompileFrom(rules, index + 1) case Err(e) => Err(e) case Ok(cs) => Ok([c] + cs)
  }

  method Grant(rules: seq<HttpRule>) returns (r: Result<seq<CompiledRule>, GrantError>)
    ensures r == CompileFrom(rules, 0)
  {
    var compiled, i := [], 0;
    assert forall cs: seq<CompiledRule> :: [] + cs == cs;
    while i < |rules|
      invariant i <= |rules|
      invariant CompileFrom(rules, 0) ==
                match CompileFrom(rules, i) case Err(e) => Err(e) case Ok(cs) => Ok(compiled + cs)
    {
      var c := CompileRule(rules[i], i);
      if c.Err? { return Err(c.error); }
      assert forall cs: seq<CompiledRule> :: (compiled + [c.value]) + cs == compiled + ([c.value] + cs);
      compiled := compiled + [c.value];
      i := i + 1;
    }
    assert compiled + [] == compiled;
    r := Ok(compiled);
  }

  datatype Url = Url(scheme: string, hostname: string, path: string)

  function PathOrRoot(p: string): string {
    if p == "" then "/" else p
  }

  predicate HostMatches(c: CompiledRule, host: string) {
    && (c.host != "" ==> c.host == host)
    && (c.suffix != "" ==> MatchesSuffix(host, c.suffix))
  }

  predicate RuleAdmits(c: CompiledRule, m: string, host: string, path: string) {
    && HostMatches(c, host)
    && m in c.methods
    && (c.pathPrefix != "" ==> c.pathPrefix <= PathOrRoot(path))
  }

  datatype Admission = Admitted | BadScheme | NoHost | BadPath | NoRuleForHost | NoMethodOrPath

  /** What admission means, apart from which refusal is given. */
  predicate Admits(rules: seq<CompiledRule>, m: string, u: Url) {
    && (u.scheme == "http" || u.scheme == "https")
    && NormalizeHost(u.hostname) != ""
    && Location.NormalizedPath(u.path)
    && exists c :: c in rules && RuleAdmits(c, UpperText(m), NormalizeHost(u.hostname), u.path)
  }

  method Admit(rules: seq<CompiledRule>, m: string, u: Url) returns (r: Admission)
    ensures r.Admitted? <==> Admits(rules, m, u)
    ensures r.BadScheme? <==> u.scheme != "http" && u.scheme != "https"
    ensures r.NoHost? <==> (u.scheme == "http" || u.scheme == "https") && NormalizeHost(u.hostname) == ""
    ensures r.BadPath? <==>
            (u.scheme == "http" || u.scheme == "https") && NormalizeHost(u.hostname) != "" && !Location.NormalizedPath(u.path)
    ensures r.NoRuleForHost? ==> forall c :: c in rules ==> !HostMatches(c, NormalizeHost(u.hostname))
    ensures r.NoMethodOrPath? ==> exists c :: c in rules && HostMatches(c, NormalizeHost(u.hostname))
  {
    hide NormalizeHost, HostMatches;
    if u.scheme != "http" && u.scheme != "https" { return BadScheme; }
    var host := NormalizeHost(u.hostname);
    if host == "" { return NoHost; }
    if !Location.NormalizedPath(u.path) { return BadPath; }
    var upper, hostMatched, i := UpperText(m), false, 0;
    while i < |rules|
      invariant i <= |rules|
      invariant hostMatched <==> exists c :: c in rules[..i] && HostMatches(c, host)
      invariant forall c :: c in rules[..i] ==> !RuleAdmits(c, upper, host, u.path)
    {
      var c := rules[i];
      assert rules[..i + 1] == rules[..i] + [c];
      i := i + 1;
      if !HostMatches(c, host) { continue; }
      hostMatched := true;
      if upper !in c.methods { continue; }
      if c.pathPrefix != "" && !(c.pathPrefix <= PathOrRoot(u.path)) { continue; }
      assert c in rules && RuleAdmits(c, upper, host, u.path);
      return Admitted;
    }
    assert rules[..i] == rules;
    r := if hostMatched then NoMethodOrPath else NoRuleForHost;
  }

  // ------------------------------------------------- how host texts compare

  lemma {:induction false} TrimDotsLower(s: string)
    ensures TrimDots(LowerText(s)) == LowerText(TrimDots(s))
  {
    if s != "" && s[|s| - 1] == '.' {
      TrimDotsLower(s[..|s| - 1]);
      assert LowerText(s)[..|s| - 1] == LowerText(s[..|s| - 1]);
    }
  }

  lemma {:induction false} TrimStartLower(s: string, t: string)
    requires LowerText(s) == LowerText(t)
    ensures LowerText(TrimStart(s)) == LowerText(TrimStart(t))
  {
    if s != "" {
      assert Lower(s[0]) == Lower(t[0]);
      if IsSpace(s[0]) {
        assert LowerText(s[1..]) == LowerText(s)[1..] == LowerText(t)[1..] == LowerText(t[1..]);
        TrimStartLower(s[1..], t[1..]);
      }
    }
  }

  lemma {:induction false} TrimEndLower(s: string, t: string)
    requires LowerText(s) == LowerText(t)
    ensures LowerText(TrimEnd(s)) == LowerText(TrimEnd(t))
  {
    if s != "" {
      var n := |s| - 1;
      assert Lower(s[n]) == LowerText(s)[n] == LowerText(t)[n] == Lower(t[n]);
      if IsSpace(s[n]) {
        assert LowerText(s[..n]) == LowerText(s)[..n] == LowerText(t)[..n] == LowerText(t[..n]);
        TrimEndLower(s[..n], t[..n]);
      }
    }
  }

  predicate EndsInDot(s: string) {
    s != "" && s[|s| - 1] == '.'
  }

  predicate EndsInSpace(s: string) {
    s != "" && IsSpace(s[|s| - 1])
  }

  lemma {:induction false} TrimDotsRest(s: string)
    ensures forall i :: |TrimDots(s)| <= i < |s| ==> s[i] == '.'
    ensures TrimDots(s) == s <==> !EndsInDot(s)
  {
    if EndsInDot(s) { TrimDotsRest(s[..|s| - 1]); }
  }

  predicate AllDots(s: string) {
    forall i :: 0 <= i < |s| ==> s[i] == '.'
  }

  lemma OnlyDots(s: string)
    ensures AllDots(s[|TrimDots(s)|..])
  {
    TrimDotsRest(s);
  }

  lemma {:induction false} TrimDotsOf(x: string, dots: string)
    requires AllDots(dots) && !EndsInDot(x)
    ensures TrimDots(x + dots) == x
  {
    var s := x + dots;
    if dots == "" {
      assert s == x;
    } else {
      assert s[..|s| - 1] == x + dots[..|dots| - 1];
      TrimDotsOf(x, dots[..|dots| - 1]);
    }
  }

  lemma {:induction false} TrimStartOf(x: string, rest: string)
    requires TrimStart(x) != ""
    ensures TrimStart(x + rest) == TrimStart(x) + rest
  {
    if x != "" && IsSpace(x[0]) {
      assert (x + rest)[1..] == x[1..] + rest;
      TrimStartOf(x[1..], rest);
    }
  }

  lemma {:induction false} TrimStartBlank(x: string, rest: string)
    requires TrimStart(x) == ""
    ensures TrimStart(x + rest) == TrimStart(rest)
  {
    if x == "" {
      assert x + rest == rest;
    } else {
      assert (x + rest)[1..] == x[1..] + rest;
      TrimStartBlank(x[1..], rest);
    }
  }

  /** A valid host in terms of its text before the trailing dots. */
  lemma NormalForm(h: string)
    requires NormalizeHost(h) != ""
    ensures var x := TrimStart(TrimDots(h));
            && x != "" && !EndsInDot(x)
            && NormalizeHost(h) == LowerText(if EndsInDot(h) then x else TrimDots(TrimEnd(x)))
  {
    hide *;
    var before := TrimDots(h);
    var dots := h[|before|..];
    OnlyDots(h);
    NormalizeUnfold(h);
    if TrimStart(before) == "" {
      StartsBlank(h, before, dots);
    } else {
      StartsText(h, before, dots, TrimStart(before));
    }
  }

  lemma NormalizeUnfold(h: string)
    ensures NormalizeHost(h) == LowerText(TrimDots(TrimEnd(TrimStart(h))))
    ensures LowerText("") == ""
  {
    hide TrimStart, TrimEnd, TrimDots;
    TrimDotsLower(Trim(h));
  }

  lemma StartsBlank(h: string, before: string, dots: string)
    requires h == before + dots && TrimStart(before) == "" && AllDots(dots)
    ensures TrimDots(TrimEnd(TrimStart(h))) == ""
  {
    hide *;
    TrimStartBlank(before, dots);
    DotsOnly(dots);
  }

  lemma StartsText(h: string, before: string, dots: string, x: string)
    requires h == before + dots && before == TrimDots(h) && x == TrimStart(before) && x != ""
    requires AllDots(dots)
    ensures !EndsInDot(x)
    ensures TrimDots(TrimEnd(TrimStart(h))) == if EndsInDot(h) then x else TrimDots(TrimEnd(x))
  {
    hide TrimStart, TrimEnd, TrimDots;
    TrimStartOf(before, dots);
    LastOfSuffix(before, x);
    if EndsInDot(h) {
      DotsThere(h, before, dots);
      LastOfSuffix(h, x + dots);
      TrimEndKeeps(x + dots);
      TrimDotsOf(x, dots);
    } else {
      assert dots == "" by { TrimDotsRest(h); }
      assert x + dots == x;
    }
  }

  lemma DotsThere(h: string, before: string, dots: string)
    requires h == before + dots && before == TrimDots(h) && EndsInDot(h)
    ensures dots != ""
  {
    TrimDotsRest(h);
    assert dots == "" ==> h == before;
  }

  lemma TrimEndKeeps(s: string)
    requires EndsInDot(s)
    ensures TrimEnd(s) == s
  {}

  lemma DotsOnly(dots: string)
    requires AllDots(dots)
    ensures TrimStart(dots) == dots && TrimDots(TrimEnd(dots)) == ""
  {
    if dots != "" { TrimEndKeeps(dots); }
    TrimDotsOf("", dots);
    assert "" + dots == dots;
  }

  /** The condition a caller could check on two exact hosts: not that one ends
      in a dot with a space before it while the other has no dot there. */
  predicate DotsAgree(a: string, b: string) {
    EndsInSpace(TrimDots(a)) ==> EndsInDot(a) == EndsInDot(b)
  }

  /** Two exact hosts that the coverage check calls the same are the same host
      to a request exactly under that condition. */
  lemma SameHostExactly(a: string, b: string)
    requires ValidHost(a) && ValidHost(b) && EqIgnoreCase(TrimDots(a), TrimDots(b))
    ensures NormalizeHost(a) == NormalizeHost(b) <==> DotsAgree(a, b)
  {
    hide TrimStart, TrimEnd, TrimDots, HasReserved, NormalizeHost, LowerText, IsSpace, EndsInDot, EndsInSpace;
    NormalForm(a);
    NormalForm(b);
    var x, y := TrimStart(TrimDots(a)), TrimStart(TrimDots(b));
    SameCore(TrimDots(a), TrimDots(b));
    CoreCut(x);
    CoreCut(y);
  }

  lemma SameCore(s: string, t: string)
    requires LowerText(s) == LowerText(t) && TrimStart(s) != "" && TrimStart(t) != ""
    ensures var x, y := TrimStart(s), TrimStart(t);
            && LowerText(x) == LowerText(y)
            && LowerText(TrimDots(TrimEnd(x))) == LowerText(TrimDots(TrimEnd(y)))
            && EndsInSpace(s) == EndsInSpace(x) == EndsInSpace(y)
  {
    hide *;
    TrimStartLower(s, t);
    var x, y := TrimStart(s), TrimStart(t);
    TrimEndLower(x, y);
    SameDots(TrimEnd(x), TrimEnd(y));
    SpaceOfSuffix(s, x);
    SpaceOfLower(x, y);
  }

  lemma SpaceOfSuffix(s: string, x: string)
    requires x != "" && |x| <= |s| && x == s[|s| - |x|..]
    ensures EndsInSpace(s) == EndsInSpace(x)
  {
    hide IsSpace;
    LastOfSuffix(s, x);
  }

  lemma SpaceOfLower(x: string, y: string)
    requires LowerText(x) == LowerText(y) && x != ""
    ensures EndsInSpace(x) == EndsInSpace(y)
  {
    hide LowerText;
    var n := |x| - 1;
    assert |y| == |x| && Lower(x[n]) == LowerText(x)[n] == LowerText(y)[n] == Lower(y[n]);
  }

  lemma LastOfSuffix(s: string, x: string)
    requires x != "" && |x| <= |s| && x == s[|s| - |x|..]
    ensures x[|x| - 1] == s[|s| - 1]
  {}

  /** Trimming a text that does not end in a dot drops exactly a space end. */
  lemma CoreCut(x: string)
    requires x != "" && !EndsInDot(x)
    ensures EndsInSpace(x) ==> |TrimDots(TrimEnd(x))| < |x|
    ensures !EndsInSpace(x) ==> TrimDots(TrimEnd(x)) == x
  {
    if EndsInSpace(x) {
      TrimEndShorter(x);
    } else {
      TrimEndSame(x);
      NoDotsToTrim(x);
    }
  }

  lemma SameDots(x: string, y: string)
    requires LowerText(x) == LowerText(y)
    ensures LowerText(TrimDots(x)) == LowerText(TrimDots(y))
  {
    TrimDotsLower(x);
    TrimDotsLower(y);
  }

  lemma TrimEndShorter(x: string)
    requires EndsInSpace(x)
    ensures |TrimDots(TrimEnd(x))| < |x|
  {}

  lemma TrimEndSame(x: string)
    requires !EndsInSpace(x)
    ensures TrimEnd(x) == x
  {}

  lemma NoDotsToTrim(x: string)
    requires !EndsInDot(x)
    ensures TrimDots(x) == x
  {}

  // ------------------------------------------------------ coverage is sound

  /** No exact pair trips over a space before a trailing dot. */
  predicate HostsAgree(required: HttpRule, granted: HttpRule) {
    required.host != "" && granted.host != "" ==> DotsAgree(granted.host, required.host)
  }

  lemma UpperOfEqual(a: string, b: string)
    requires EqIgnoreCase(a, b)
    ensures UpperText(a) == UpperText(b)
  {
    forall i | 0 <= i < |a| ensures UpperText(a)[i] == UpperText(b)[i] {
      assert LowerText(a)[i] == LowerText(b)[i];
    }
  }

  lemma PatternSuffixCompiles(p: string)
    requires PatternSuffix(p).Some?
    ensures GrantSuffix(p) == PatternSuffix(p) && PatternSuffix(p).value != ""
  {
    hide HasReserved, NormalizeHost;
    var n := NormalizeHost(p);
    assert n[1..][0] == n[1] == '.';
  }

  lemma ShapeCompiles(r: HttpRule, index: nat)
    requires ShapeValid(r)
    ensures CompileRule(r, index).Ok?
    ensures var c := CompileRule(r, index).value;
            && c.methods == UpperAll(r.methods) && c.pathPrefix == r.pathPrefix
            && (r.host != "" ==> c.host == NormalizeHost(r.host) && c.host != "" && c.suffix == "")
            && (r.host == "" ==> c.host == "" && PatternSuffix(r.hostPattern) == Some(c.suffix) && c.suffix != "")
  {
    hide NormalizeHost, HasReserved, PatternSuffix, GrantSuffix;
    if r.host == "" { PatternSuffixCompiles(r.hostPattern); }
  }

  lemma EndsWithTransitive(s: string, t: string, u: string)
    requires EndsWith(s, t) && EndsWith(t, u)
    ensures EndsWith(s, u)
  {
    assert s[|s| - |u|..] == s[|s| - |t|..][|t| - |u|..];
  }

  lemma ExactCoverageSound(required: HttpRule, g: HttpRule)
    requires ShapeValid(required) && ShapeValid(g) && HostCovered(required, g) && HostsAgree(required, g)
    requires required.host != "" && g.host != ""
    ensures NormalizeHost(required.host) == NormalizeHost(g.host)
  {
    hide NormalizeHost, ValidHost, PatternSuffix, DotsAgree, TrimDots, LowerText, Location.NormalizedPath;
    SameHostExactly(g.host, required.host);
  }

  lemma PatternCoverageSound(pattern: string, granted: string, host: string)
    requires PatternUnder(pattern, granted)
    requires MatchesSuffix(host, PatternSuffix(pattern).value)
    ensures MatchesSuffix(host, PatternSuffix(granted).value)
  {
    hide PatternSuffix;
    var s, over := PatternSuffix(pattern).value, PatternSuffix(granted).value;
    if s != over { EndsWithTransitive(host, s, over); }
  }

  lemma HostCoverageSound(required: HttpRule, g: HttpRule, host: string)
    requires ShapeValid(required) && ShapeValid(g) && HostCovered(required, g) && HostsAgree(required, g)
    requires CompileRule(required, 0).Ok? && HostMatches(CompileRule(required, 0).value, host)
    ensures CompileRule(g, 0).Ok? && HostMatches(CompileRule(g, 0).value, host)
  {
    hide NormalizeHost, ValidHost, ValidHostPattern, PatternSuffix, CompileRule, HostsAgree, EqIgnoreCase, MatchesSuffix, PatternUnder,
      Location.NormalizedPath, TrimDots;
    ShapeCompiles(required, 0);
    ShapeCompiles(g, 0);
    if required.host != "" {
      assert host == NormalizeHost(required.host);
      if g.host != "" { ExactCoverageSound(required, g); }
    } else {
      PatternCoverageSound(required.hostPattern, g.hostPattern, host);
    }
  }

  lemma MethodCoverageSound(required: seq<string>, granted: seq<string>, m: string)
    requires MethodsCovered(required, granted) && m in UpperAll(required)
    ensures m in UpperAll(granted)
  {
    hide EqIgnoreCase;
    var i :| 0 <= i < |required| && UpperAll(required)[i] == m;
    assert required[i] in required;
    var g :| g in granted && EqIgnoreCase(g, required[i]);
    var j :| 0 <= j < |granted| && granted[j] == g;
    UpperOfEqual(g, required[i]);
    assert UpperAll(granted)[j] == m;
  }

  lemma PrefixCoverageSound(required: string, granted: string, path: string)
    requires granted == "" || granted <= required
    requires required != "" ==> required <= path
    ensures granted != "" ==> granted <= path
  {}

  /** One covered rule: what its compiled form admits, the granted one's does. */
  lemma RuleCoverageSound(required: HttpRule, g: HttpRule, m: string, host: string, path: string)
    requires ShapeValid(required) && ShapeValid(g) && CoveredBy(required, g) && HostsAgree(required, g)
    requires CompileRule(required, 0).Ok? && RuleAdmits(CompileRule(required, 0).value, m, host, path)
    ensures CompileRule(g, 0).Ok? && RuleAdmits(CompileRule(g, 0).value, m, host, path)
  {
    hide *;
    ShapeCompiles(required, 0);
    ShapeCompiles(g, 0);
    CoveredByMeans(required, g);
    AdmitsMeans(CompileRule(required, 0).value, m, host, path);
    AdmitsMeans(CompileRule(g, 0).value, m, host, path);
    HostCoverageSound(required, g, host);
    MethodCoverageSound(required.methods, g.methods, m);
    PrefixCoverageSound(required.pathPrefix, g.pathPrefix, PathOrRoot(path));
  }

  lemma CoveredByMeans(required: HttpRule, g: HttpRule)
    requires CoveredBy(required, g)
    ensures HostCovered(required, g) && MethodsCovered(required.methods, g.methods)
    ensures g.pathPrefix == "" || g.pathPrefix <= required.pathPrefix
  {
    hide HostCovered, MethodsCovered;
  }

  lemma AdmitsMeans(c: CompiledRule, m: string, host: string, path: string)
    ensures RuleAdmits(c, m, host, path) <==>
            HostMatches(c, host) && m in c.methods && (c.pathPrefix != "" ==> c.pathPrefix <= PathOrRoot(path))
  {
    hide HostMatches;
  }

  lemma CompileFromStep(rules: seq<HttpRule>, index: nat)
    requires index < |rules| && CompileRule(rules[index], index).Ok? && CompileFrom(rules, index + 1).Ok?
    ensures CompileFrom(rules, index) == Ok([CompileRule(rules[index], index).value] + CompileFrom(rules, index + 1).value)
  {
    hide CompileRule;
  }

  lemma {:induction false} CompileAll(rules: seq<HttpRule>, index: nat)
    requires index <= |rules| && forall r :: r in rules ==> ShapeValid(r)
    ensures CompileFrom(rules, index).Ok? && |CompileFrom(rules, index).value| == |rules| - index
    ensures forall i :: index <= i < |rules| ==> CompileRule(rules[i], 0) == Ok(CompileFrom(rules, index).value[i - index])
    decreases |rules| - index
  {
    if index < |rules| {
      hide *;
      CompileAll(rules, index + 1);
      assert rules[index] in rules;
      ShapeCompiles(rules[index], index);
      SameWhateverIndex(rules[index], index);
      CompileFromStep(rules, index);
      var rest, all := CompileFrom(rules, index + 1).value, CompileFrom(rules, index).value;
      forall i | index <= i < |rules| ensures CompileRule(rules[i], 0) == Ok(all[i - index]) {
        if i > index { assert all[i - index] == rest[i - index - 1]; }
      }
    }
  }

  lemma SameWhateverIndex(r: HttpRule, index: nat)
    requires CompileRule(r, index).Ok?
    ensures CompileRule(r, 0) == CompileRule(r, index)
  {
    hide ValidHost, NormalizeHost, GrantSuffix;
  }

  /** Covered by a rule that does not trip over the dots. */
  ghost predicate AgreeinglyCovered(required: HttpRule, granted: seq<HttpRule>) {
    exists g :: g in granted && CoveredBy(required, g) && HostsAgree(required, g)
  }

  /** Coverage is sound: a manifest whose every required rule is covered by the
      granted ones can be given its own rules - each request they admit, the
      grant admits. Both lists pass `grant` without error. */
  lemma CoverageIsSound(required: seq<HttpRule>, granted: seq<HttpRule>, m: string, u: Url)
    requires forall r :: r in required ==> ShapeValid(r) && AgreeinglyCovered(r, granted)
    requires forall g :: g in granted ==> ShapeValid(g)
    ensures CompileFrom(required, 0).Ok? && CompileFrom(granted, 0).Ok?
    ensures Admits(CompileFrom(required, 0).value, m, u) ==> Admits(CompileFrom(granted, 0).value, m, u)
  {
    hide ShapeValid, CompileRule, NormalizeHost, RuleAdmits, CoveredBy, HostsAgree, CompileFrom, Location.NormalizedPath, UpperText;
    CompileAll(required, 0);
    CompileAll(granted, 0);
    var rs, gs := CompileFrom(required, 0).value, CompileFrom(granted, 0).value;
    if Admits(rs, m, u) {
      var host := NormalizeHost(u.hostname);
      var c :| c in rs && RuleAdmits(c, UpperText(m), host, u.path);
      var i :| 0 <= i < |rs| && rs[i] == c;
      assert CompileRule(required[i], 0) == Ok(rs[i]);
      assert required[i] in required;
      var g :| g in granted && CoveredBy(required[i], g) && HostsAgree(required[i], g);
      RuleCoverageSound(required[i], g, UpperText(m), host, u.path);
      var j :| 0 <= j < |granted| && granted[j] == g;
      assert CompileRule(granted[j], 0) == Ok(gs[j]) && gs[j] in gs;
    }
  }

  lemma SameMethod(m: string)
    ensures EqIgnoreCase(m, m)
  {}

  lemma CoveredReflexive(r: HttpRule)
    requires ShapeValid(r)
    ensures Covered(r, [r])
  {
    hide NormalizeHost, PatternSuffix, ValidHost, LowerText;
    assert r in [r];
    forall m | m in r.methods ensures exists g :: g in r.methods && EqIgnoreCase(g, m) { SameMethod(m); }
    assert CoveredBy(r, r);
  }

  lemma HostCoveredTransitive(a: HttpRule, b: HttpRule, c: HttpRule)
    requires ShapeValid(a) && ShapeValid(b) && ShapeValid(c) && HostsAgree(a, b)
    requires HostCovered(a, b) && HostCovered(b, c)
    ensures HostCovered(a, c)
  {
    hide NormalizeHost, PatternSuffix, HostsAgree, ValidHost, ValidHostPattern, TrimDots, LowerText, MatchesSuffix, PatternUnder,
      Location.NormalizedPath;
    if a.host != "" && b.host != "" {
      if c.host == "" { ExactCoverageSound(a, b); }
    } else if a.host != "" {
      UnderMeans(b.hostPattern, c.hostPattern);
      PatternCoverageSound(b.hostPattern, c.hostPattern, NormalizeHost(a.host));
    } else {
      UnderTransitive(a.hostPattern, b.hostPattern, c.hostPattern);
    }
  }

  lemma UnderMeans(p: string, q: string)
    requires PatternUnder(p, q)
    ensures PatternSuffix(p).Some? && PatternSuffix(q).Some?
  {
    hide PatternSuffix;
  }

  lemma UnderTransitive(p: string, q: string, r: string)
    requires PatternUnder(p, q) && PatternUnder(q, r)
    ensures PatternUnder(p, r)
  {
    hide PatternSuffix;
    var s, t, u := PatternSuffix(p).value, PatternSuffix(q).value, PatternSuffix(r).value;
    if s != t && t != u { EndsWithTransitive(s, t, u); }
  }

  lemma MethodsCoveredTransitive(a: seq<string>, b: seq<string>, c: seq<string>)
    requires MethodsCovered(a, b) && MethodsCovered(b, c)
    ensures MethodsCovered(a, c)
  {
    forall m | m in a ensures exists g :: g in c && EqIgnoreCase(g, m) {
      var h :| h in b && EqIgnoreCase(h, m);
      var g :| g in c && EqIgnoreCase(g, h);
      assert EqIgnoreCase(g, m);
    }
  }

  /** A layer may narrow what a layer above it granted, and coverage carries
      through. */
  lemma CoveredTransitive(a: HttpRule, bs: seq<HttpRule>, cs: seq<HttpRule>)
    requires ShapeValid(a) && AgreeinglyCovered(a, bs) && forall c :: c in cs ==> ShapeValid(c)
    requires forall b :: b in bs ==> ShapeValid(b) && Covered(b, cs)
    ensures Covered(a, cs)
  {
    hide ShapeValid, HostsAgree, HostCovered, MethodsCovered;
    var b :| b in bs && CoveredBy(a, b) && HostsAgree(a, b);
    var c :| c in cs && CoveredBy(b, c);
    HostCoveredTransitive(a, b, c);
    MethodsCoveredTransitive(a.methods, b.methods, c.methods);
    assert CoveredBy(a, c);
  }

  /** The condition is exact: for a covered pair of exact hosts that breaks it,
      a request to the required host itself is admitted by the required rule
      and refused by the granted one. */
  lemma CoverageFailsExactly(required: HttpRule, g: HttpRule)
    requires ShapeValid(required) && ShapeValid(g) && required.host != "" && g.host != "" && CoveredBy(required, g)
    ensures var u := Url("https", required.host, PathOrRoot(required.pathPrefix));
            var m := required.methods[0];
            && CompileRule(required, 0).Ok? && CompileRule(g, 0).Ok?
            && Admits([CompileRule(required, 0).value], m, u)
            && (Admits([CompileRule(g, 0).value], m, u) <==> HostsAgree(required, g))
  {
    hide *;
    ShapeCompiles(required, 0);
    ShapeCompiles(g, 0);
    var c, d, host := CompileRule(required, 0).value, CompileRule(g, 0).value, NormalizeHost(required.host);
    OwnRequest(required, c, host);
    var path, m := PathOrRoot(required.pathPrefix), required.methods[0];
    var u := Url("https", required.host, path);
    AdmitsOne(c, m, u);
    AdmitsOne(d, m, u);
    if HostsAgree(required, g) {
      RuleCoverageSound(required, g, UpperText(m), host, path);
    } else {
      ExactHostDiffers(required, g, d, host);
      AdmitsMeans(d, UpperText(m), host, path);
    }
  }

  lemma AdmitsOne(c: CompiledRule, m: string, u: Url)
    requires u.scheme == "https" && NormalizeHost(u.hostname) != "" && Location.NormalizedPath(u.path)
    ensures Admits([c], m, u) <==> RuleAdmits(c, UpperText(m), NormalizeHost(u.hostname), u.path)
  {
    hide NormalizeHost, RuleAdmits, Location.NormalizedPath, UpperText;
    assert c in [c];
  }

  lemma OwnRequest(r: HttpRule, c: CompiledRule, host: string)
    requires ShapeValid(r) && r.host != "" && host == NormalizeHost(r.host)
    requires c.host == host && c.suffix == "" && c.methods == UpperAll(r.methods) && c.pathPrefix == r.pathPrefix
    ensures host != "" && Location.NormalizedPath(PathOrRoot(r.pathPrefix))
    ensures |r.methods| > 0 && RuleAdmits(c, UpperText(r.methods[0]), host, PathOrRoot(r.pathPrefix))
  {
    hide NormalizeHost, ValidHostPattern, Location.NormalizedPath, UpperText, HasReserved;
    RootIsNormalized();
    assert UpperAll(r.methods)[0] == UpperText(r.methods[0]);
  }

  lemma ExactHostDiffers(required: HttpRule, g: HttpRule, d: CompiledRule, host: string)
    requires ShapeValid(required) && ShapeValid(g) && CoveredBy(required, g) && !HostsAgree(required, g)
    requires host == NormalizeHost(required.host) && d.host == NormalizeHost(g.host) && d.host != ""
    ensures !HostMatches(d, host)
  {
    hide NormalizeHost, PatternSuffix, MethodsCovered, DotsAgree, TrimDots, HasReserved, ValidHostPattern, LowerText, Location.NormalizedPath;
    SameHostExactly(g.host, required.host);
  }

  lemma RootIsNormalized()
    ensures Location.NormalizedPath("/")
  {
    Location.JoinSplit("");
    Location.NormalizedIsPlain("/");
    assert "/"[1..] == "";
    assert Location.Split("") == [""];
  }

  const BARE: string := ['a']
  const SPACED: string := BARE + ['\r']
  const DOTTED: string := SPACED + ['.']

  /** Such rules exist and pass validation: a carriage return before the dot. */
  lemma CarriageReturnBreaksCoverage()
    ensures var required, g := HttpRule(SPACED, "", ["GET"], ""), HttpRule(DOTTED, "", ["GET"], "");
            ShapeValid(required) && ShapeValid(g) && Covered(required, [g]) && !HostsAgree(required, g)
  {
    hide *;
    CarriageReturnTexts();
    EmptyIsNormalized();
    OneRuleShape(SPACED);
    OneRuleShape(DOTTED);
    OneRuleCovered(SPACED, DOTTED);
  }

  lemma CarriageReturnTexts()
    ensures TrimDots(DOTTED) == SPACED == TrimDots(SPACED) && SPACED != "" && DOTTED != ""
    ensures ValidHost(SPACED) && ValidHost(DOTTED) && !DotsAgree(DOTTED, SPACED)
  {
    hide *;
    TheTexts();
    KeepText(BARE, 'a');
    KeepText(SPACED, '\r');
    KeepText(DOTTED, '.');
    WithSpaceAndDot(BARE, SPACED, DOTTED);
  }

  /** A text that is in lower case, reserves nothing and starts with no space. */
  predicate PlainText(s: string, last: char) {
    && s != "" && s[0] == 'a' && s[|s| - 1] == last
    && forall i :: 0 <= i < |s| ==> s[i] == 'a' || s[i] == '\r' || s[i] == '.'
  }

  lemma TheTexts()
    ensures PlainText(BARE, 'a') && PlainText(SPACED, '\r') && PlainText(DOTTED, '.')
    ensures BARE != "" && SPACED != "" && DOTTED != ""
    ensures SPACED == BARE + ['\r'] && DOTTED == SPACED + ['.']
  {}

  lemma WithSpaceAndDot(a: string, s: string, t: string)
    requires a != "" && s == a + ['\r'] && t == s + ['.']
    requires TrimStart(s) == s && TrimStart(t) == t && TrimEnd(a) == a && TrimEnd(t) == t && TrimDots(a) == a && TrimDots(s) == s
    requires LowerText(a) == a && LowerText(t) == t && !HasReserved(a) && !HasReserved(s)
    requires EndsInDot(t) && !EndsInDot(s) && EndsInSpace(s)
    ensures TrimDots(t) == s && ValidHost(s) && ValidHost(t) && !DotsAgree(t, s)
  {
    hide *;
    CutSpace(s, a);
    CutDot(t, s);
    PlainHost(s, a, a);
    PlainHost(t, t, s);
    Disagree(t, s);
  }

  lemma CutSpace(s: string, t: string)
    requires s == t + ['\r']
    ensures TrimEnd(s) == TrimEnd(t)
  {
    assert s[..|s| - 1] == t;
  }

  lemma CutDot(s: string, t: string)
    requires s == t + ['.']
    ensures TrimDots(s) == TrimDots(t)
  {
    assert s[..|s| - 1] == t;
  }

  lemma KeepText(s: string, last: char)
    requires PlainText(s, last)
    ensures TrimStart(s) == s && LowerText(s) == s && !HasReserved(s)
    ensures last != '\r' ==> TrimEnd(s) == s
    ensures last != '.' ==> TrimDots(s) == s && !EndsInDot(s)
    ensures last == '.' ==> EndsInDot(s)
    ensures last == '\r' ==> EndsInSpace(s)
  {
    KeepCase(s);
    NothingReserved(s);
    KeepEnds(s);
    hide *;
  }

  lemma KeepCase(s: string)
    requires forall i :: 0 <= i < |s| ==> s[i] == 'a' || s[i] == '\r' || s[i] == '.'
    ensures LowerText(s) == s
  {}

  lemma NothingReserved(s: string)
    requires forall i :: 0 <= i < |s| ==> s[i] == 'a' || s[i] == '\r' || s[i] == '.'
    ensures !HasReserved(s)
  {
    forall i | 0 <= i < |s| ensures s[i] !in ['*', '/', ':', '%', '@', ' ', '\t', '\n', '[', ']'] {}
  }

  lemma KeepEnds(s: string)
    requires s != "" && s[0] == 'a' && (s[|s| - 1] == 'a' || s[|s| - 1] == '\r' || s[|s| - 1] == '.')
    ensures TrimStart(s) == s
    ensures s[|s| - 1] != '\r' ==> TrimEnd(s) == s
    ensures s[|s| - 1] != '.' ==> TrimDots(s) == s && !EndsInDot(s)
    ensures s[|s| - 1] == '.' ==> EndsInDot(s)
    ensures s[|s| - 1] == '\r' ==> EndsInSpace(s)
  {}

  lemma PlainHost(h: string, trimmed: string, bare: string)
    requires TrimStart(h) == h && TrimEnd(h) == trimmed && LowerText(trimmed) == trimmed && TrimDots(trimmed) == bare
    requires bare != "" && !HasReserved(bare)
    ensures ValidHost(h)
  {
    hide HasReserved, TrimStart, TrimEnd, TrimDots, LowerText;
  }

  lemma Disagree(a: string, b: string)
    requires EndsInDot(a) && !EndsInDot(b) && EndsInSpace(TrimDots(a))
    ensures !DotsAgree(a, b)
  {}

  lemma OneRuleShape(host: string)
    requires ValidHost(host) && host != "" && Location.NormalizedPath("")
    ensures ShapeValid(HttpRule(host, "", ["GET"], ""))
  {
    hide ValidHost, ValidHostPattern, Location.NormalizedPath;
  }

  lemma OneRuleCovered(h: string, k: string)
    requires h != "" && k != "" && TrimDots(h) == TrimDots(k)
    ensures var r, g := HttpRule(h, "", ["GET"], ""), HttpRule(k, "", ["GET"], "");
            Covered(r, [g]) && (HostsAgree(r, g) <==> DotsAgree(k, h))
  {
    hide TrimDots, DotsAgree, PatternCovers, PatternUnder, LowerText;
    var r, g := HttpRule(h, "", ["GET"], ""), HttpRule(k, "", ["GET"], "");
    OneMethod("GET");
    assert HostCovered(r, g) && CoveredBy(r, g) && g in [g];
  }

  lemma OneMethod(m: string)
    ensures MethodsCovered([m], [m])
  {
    SameMethod(m);
    assert m in [m];
  }

  lemma EmptyIsNormalized()
    ensures Location.NormalizedPath("")
  {}

  // ---------------------------------------------- in the texts' own terms

  const CAPITALS: string := "ABCDEFGHIJKLMNOPQRSTUVWXYZ"
  const SMALLS: string := "abcdefghijklmnopqrstuvwxyz"

  lemma CaseIsAscii(c: char, i: nat)
    requires i < 26
    ensures Lower(CAPITALS[i]) == SMALLS[i] && Upper(SMALLS[i]) == CAPITALS[i]
    ensures (forall j :: 0 <= j < 26 ==> c != CAPITALS[j]) ==> Lower(c) == c
    ensures (forall j :: 0 <= j < 26 ==> c != SMALLS[j]) ==> Upper(c) == c
  {
    Letter(i);
    if 'A' <= c <= 'Z' { Letter(c as int - 'A' as int); }
    if 'a' <= c <= 'z' { Letter(c as int - 'a' as int); }
  }

  lemma Letter(i: nat)
    requires i < 26
    ensures CAPITALS[i] as int == 65 + i && SMALLS[i] as int == 97 + i
  {}

  /** The characters that Unicode gives the property White_Space. */
  lemma SpacesAre(c: char)
    ensures IsSpace(c) <==> c in {
              '\t', '\n', '\U{B}', '\U{C}', '\r', ' ', '\U{85}', '\U{A0}', '\U{1680}',
              '\U{2000}', '\U{2001}', '\U{2002}', '\U{2003}', '\U{2004}', '\U{2005}', '\U{2006}', '\U{2007}', '\U{2008}',
              '\U{2009}', '\U{200A}', '\U{2028}', '\U{2029}', '\U{202F}', '\U{205F}', '\U{3000}'}
  {}

  predicate OnlySpaces(s: string) {
    forall i :: 0 <= i < |s| ==> IsSpace(s[i])
  }

  lemma {:induction false} LeadingTrimmed(lead: string, x: string)
    requires OnlySpaces(lead) && x != "" && !IsSpace(x[0])
    ensures TrimStart(lead + x) == x
  {
    hide IsSpace;
    if lead == "" {
      assert lead + x == x;
    } else {
      assert (lead + x)[1..] == lead[1..] + x;
      LeadingTrimmed(lead[1..], x);
    }
  }

  lemma {:induction false} TrailingTrimmed(x: string, trail: string)
    requires OnlySpaces(trail) && x != "" && !IsSpace(x[|x| - 1])
    ensures TrimEnd(x + trail) == x
    decreases |trail|
  {
    hide IsSpace;
    if trail == "" {
      assert x + trail == x;
    } else {
      var n := |trail| - 1;
      assert (x + trail)[..|x| + n] == x + trail[..n];
      TrailingTrimmed(x, trail[..n]);
    }
  }

  /** Normalising drops the spaces around a host and then the dots behind it,
      and puts what is left in lower case. */
  lemma NormalizedText(lead: string, x: string, dots: string, trail: string)
    requires OnlySpaces(lead) && OnlySpaces(trail) && AllDots(dots)
    requires x != "" && !IsSpace(x[0]) && x[|x| - 1] != '.' && (dots == "" ==> !IsSpace(x[|x| - 1]))
    ensures NormalizeHost(lead + (x + dots + trail)) == LowerText(x)
  {
    hide *;
    var core := x + dots;
    LastOfCore(x, dots);
    FirstOf(core, trail);
    LeadingTrimmed(lead, core + trail);
    TrailingTrimmed(core, trail);
    TrimDotsOf(x, dots);
    NormalizeUnfold(lead + (core + trail));
  }

  lemma FirstOf(core: string, trail: string)
    requires core != ""
    ensures (core + trail)[0] == core[0]
  {}

  lemma LastOfCore(x: string, dots: string)
    requires AllDots(dots) && x != "" && x[|x| - 1] != '.' && (dots == "" ==> !IsSpace(x[|x| - 1]))
    ensures var core := x + dots; core != "" && core[0] == x[0] && !IsSpace(core[|core| - 1]) && !EndsInDot(x)
  {}

  /** A host under a pattern: at least a character before what its star stands
      in front of. */
  ghost predicate Under(host: string, pattern: string) {
    exists front, suffix :: front != "" && NormalizeHost(pattern) == "*" + suffix && host == front + suffix
  }

  lemma UnderExactly(host: string, pattern: string)
    requires PatternSuffix(pattern).Some?
    ensures MatchesSuffix(host, PatternSuffix(pattern).value) <==> Under(host, pattern)
  {
    hide NormalizeHost, HasReserved;
    var p, s := NormalizeHost(pattern), PatternSuffix(pattern).value;
    assert p == "*" + s;
    if MatchesSuffix(host, s) { assert host == host[..|host| - |s|] + s; }
    forall front, suffix | p == "*" + suffix && host == front + suffix ensures suffix == s {
      assert suffix == p[1..];
    }
  }

  predicate Bare(s: string) {
    forall c :: c in s ==> c !in {'*', '/', ':', '%', '@', ' ', '\t', '\n', '[', ']'}
  }

  lemma BareExactly(s: string)
    ensures !HasReserved(s) <==> Bare(s)
  {
    assert forall i :: 0 <= i < |s| ==> s[i] in s;
  }

  /** `*.` and a host that is more than spaces and dots. */
  ghost predicate PatternWellFormed(pattern: string) {
    exists host :: NormalizeHost(pattern) == "*." + host && Bare(host) && NormalizeHost(host) != ""
  }

  lemma PartOfText(h: string)
    ensures forall c :: c in NormalizeHost(h) ==> exists b :: b in h && c == Lower(b)
  {
    hide TrimStart, TrimEnd, TrimDots;
    var t := Trim(h);
    assert forall i :: 0 <= i < |t| ==> t[i] in h;
    forall c | c in NormalizeHost(h) ensures exists b :: b in h && c == Lower(b) {
      var i :| 0 <= i < |NormalizeHost(h)| && NormalizeHost(h)[i] == c;
      assert NormalizeHost(h)[i] == LowerText(t)[i] == Lower(t[i]);
    }
  }

  lemma BareNormalized(h: string)
    requires Bare(h)
    ensures Bare(NormalizeHost(h))
  {
    hide NormalizeHost;
    PartOfText(h);
  }

  lemma PatternExactly(p: string)
    ensures ValidHostPattern(p) <==> PatternWellFormed(p)
  {
    hide NormalizeHost, HasReserved, Bare;
    var n := NormalizeHost(p);
    if "*." <= n {
      var host := n[2..];
      assert n == "*." + host && n[1..] == "." + host && (n[1..])[1..] == host;
      BareExactly(host);
      BareExactly(n[1..]);
      BareExactly(NormalizeHost(host));
      DotIsBare(host);
      if Bare(host) { BareNormalized(host); }
      OnlyHost(p, host);
    }
    EmptyHost();
    forall host: string | n == "*." + host ensures "*." <= n {}
  }

  lemma EmptyHost()
    ensures NormalizeHost("") == ""
  {}

  lemma DotIsBare(s: string)
    ensures Bare("." + s) <==> Bare(s)
  {
    assert forall c :: c in "." + s <==> c == '.' || c in s;
  }

  lemma OnlyHost(p: string, host: string)
    requires NormalizeHost(p) == "*." + host
    ensures forall other: string :: NormalizeHost(p) == "*." + other ==> other == host
  {
    forall other: string | NormalizeHost(p) == "*." + other ensures other == host {
      assert other == NormalizeHost(p)[2..] == host;
    }
  }

  /** Which rules validation lets through: one host or one pattern, none of
      its characters reserved, methods of the seven, a normalized prefix. */
  lemma ShapeExactly(r: HttpRule)
    ensures ShapeValid(r) <==>
            && ((r.host == "" && r.hostPattern != "" && PatternWellFormed(r.hostPattern)) ||
                (r.hostPattern == "" && r.host != "" && NormalizeHost(r.host) != "" && Bare(NormalizeHost(r.host))))
            && |r.methods| > 0 && (forall m :: m in r.methods ==> m in {"GET", "HEAD", "POST", "PUT", "PATCH", "DELETE", "OPTIONS"})
            && (r.pathPrefix == "" || ("/" <= r.pathPrefix && Location.NormalizedPath(r.pathPrefix)))
  {
    hide NormalizeHost, PatternWellFormed, ValidHostPattern, HasReserved, Bare, Location.NormalizedPath;
    PatternExactly(r.hostPattern);
    BareExactly(NormalizeHost(r.host));
    EmptyIsNormalized();
  }

  lemma UpperMethods(methods: seq<string>)
    requires forall m :: m in methods ==> m in METHODS
    ensures UpperAll(methods) == methods
  {
    forall i | 0 <= i < |methods| ensures UpperText(methods[i]) == methods[i] { UpperMethod(methods[i]); }
  }

  lemma UpperMethod(m: string)
    requires m in METHODS
    ensures UpperText(m) == m
  {
    assert forall i :: 0 <= i < |m| ==> 'A' <= m[i] <= 'Z';
  }

  /** A compiled rule admits a request when the host is the rule's, or under
      its pattern, the method is listed and the path starts with the prefix. */
  lemma RuleAdmitsExactly(r: HttpRule, m: string, host: string, path: string)
    requires ShapeValid(r)
    ensures CompileRule(r, 0).Ok?
    ensures RuleAdmits(CompileRule(r, 0).value, m, host, path) <==>
            && (if r.host != "" then host == NormalizeHost(r.host) else Under(host, r.hostPattern))
            && m in r.methods
            && (r.pathPrefix == "" || r.pathPrefix <= if path == "" then "/" else path)
  {
    hide NormalizeHost, ValidHost, HasReserved, PatternSuffix, Under, CompileRule, Location.NormalizedPath, MatchesSuffix;
    ShapeCompiles(r, 0);
    UpperMethods(r.methods);
    if r.host == "" { UnderExactly(host, r.hostPattern); }
  }

  /** Coverage of hosts is complete too, except between two exact hosts: a rule
      is covered exactly when the other one matches each of its hosts. */
  lemma HostCoverageExactly(required: HttpRule, g: HttpRule)
    requires ShapeValid(required) && ShapeValid(g) && (required.host == "" || g.host == "")
    ensures CompileRule(required, 0).Ok? && CompileRule(g, 0).Ok?
    ensures HostCovered(required, g) <==>
            forall host :: HostMatches(CompileRule(required, 0).value, host) ==> HostMatches(CompileRule(g, 0).value, host)
  {
    hide NormalizeHost, ValidHost, HasReserved, PatternSuffix, CompileRule, Location.NormalizedPath, MatchesSuffix, EqIgnoreCase;
    ShapeCompiles(required, 0);
    ShapeCompiles(g, 0);
    if required.host != "" {
      assert HostMatches(CompileRule(required, 0).value, NormalizeHost(required.host));
    } else {
      var s := PatternSuffix(required.hostPattern).value;
      SomeUnder(s);
      if g.host == "" {
        var over := PatternSuffix(g.hostPattern).value;
        if PatternUnder(required.hostPattern, g.hostPattern) {
          forall host | MatchesSuffix(host, s) ensures MatchesSuffix(host, over) {
            PatternCoverageSound(required.hostPattern, g.hostPattern, host);
          }
        } else {
          assert HostMatches(CompileRule(required, 0).value, "a" + s);
          NotUnder(s, over);
        }
      } else {
        assert HostMatches(CompileRule(required, 0).value, "a" + s);
        assert HostMatches(CompileRule(required, 0).value, "b" + s);
        assert ("a" + s)[0] != ("b" + s)[0];
      }
    }
  }

  lemma SomeUnder(s: string)
    ensures MatchesSuffix("a" + s, s) && MatchesSuffix("b" + s, s)
  {}

  lemma NotUnder(s: string, over: string)
    requires s != over && !EndsWith(s, over)
    ensures !MatchesSuffix("a" + s, over)
  {
    if |over| <= |s| { assert ("a" + s)[|s| + 1 - |over|..] == s[|s| - |over|..]; }
  }
}
