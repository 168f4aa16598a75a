/** Recognisers and lexical normalisation of crates/function/src/location.rs:
    `repository_segment_is_valid`, `path_clean` and `normalized_path`. */
module Location {
  import opened Base

  // ------------------------------------------------ repository name segments

  predicate AlNum(c: char) {
    'a' <= c <= 'z' || '0' <= c <= '9'
  }

  /** The name-component grammar of the OCI Distribution Specification, section
      "Pulling manifests": alphanumeric runs joined by one period, one or two
      underscores, or any number of hyphens. */
  predicate IsRun(s: string) {
    s != "" && forall i :: 0 <= i < |s| ==> AlNum(s[i])
  }

  lemma RunCharacters(c: char)
    ensures IsRun([c]) <==> c in {
              'a', 'b', 'c', 'd', 'e', 'f', 'g', 'h', 'i', 'j', 'k', 'l', 'm', 'n', 'o', 'p', 'q', 'r', 's', 't', 'u', 'v', 'w', 'x', 'y', 'z',
              '0', '1', '2', '3', '4', '5', '6', '7', '8', '9'}
  {
    assert [c][0] == c;
  }

  predicate IsSeparator(s: string) {
    s == "." || s == "_" || s == "__" || (s != "" && forall i :: 0 <= i < |s| ==> s[i] == '-')
  }

  datatype Part = Part(sep: string, run: string)

  ghost predicate PartsOk(parts: seq<Part>) {
    forall i :: 0 <= i < |parts| ==> IsSeparator(parts[i].sep) && IsRun(parts[i].run)
  }

  function PartsText(parts: seq<Part>): string {
    if parts == [] then "" else parts[0].sep + (parts[0].run + PartsText(parts[1..]))
  }

  ghost predicate NameComponent(s: string) {
    exists run, parts :: IsRun(run) && PartsOk(parts) && s == run + PartsText(parts)
  }

  /** How far `run` gets. */
  function RunLen(s: string): (n: nat)
    ensures n <= |s|
  {
    if s != "" && AlNum(s[0]) then 1 + RunLen(s[1..]) else 0
  }

  function Dashes(s: string): (n: nat)
    ensures n <= |s|
  {
    if s != "" && s[0] == '-' then 1 + Dashes(s[1..]) else 0
  }

  /** How far the match on the separator gets; 0 is its refusal. */
  function SeparatorLen(s: string): (n: nat)
    requires s != ""
    ensures n <= |s|
  {
    if s[0] == '.' then 1
    else if s[0] == '_' then (if 1 < |s| && s[1] == '_' then 2 else 1)
    else Dashes(s)
  }

  predicate ScanTail(s: string)
    decreases |s|
  {
    s == "" ||
    var n := SeparatorLen(s);
    n > 0 && var m := RunLen(s[n..]); m > 0 && ScanTail(s[n..][m..])
  }

  predicate Scan(s: string) {
    RunLen(s) > 0 && ScanTail(s[RunLen(s)..])
  }

  /** The `run` closure over the shared index. */
  method Run(b: string, start: nat) returns (i: nat)
    requires start <= |b|
    ensures i == start + RunLen(b[start..]) <= |b|
  {
    i := start;
    while i < |b| && AlNum(b[i])
      invariant start <= i <= |b| && start + RunLen(b[start..]) == i + RunLen(b[i..])
    {
      assert b[i..][1..] == b[i + 1..];
      i := i + 1;
    }
  }

  /** The match on the separator; an index that did not move is its refusal. */
  method SkipSeparator(b: string, start: nat) returns (i: nat)
    requires start < |b|
    ensures i == start + SeparatorLen(b[start..]) <= |b|
  {
    i := start;
    match b[i] {
      case '.' => i := i + 1;
      case '_' =>
        i := i + 1;
        if i < |b| && b[i] == '_' { i := i + 1; }
      case _ =>
        while i < |b| && b[i] == '-'
          invariant start <= i <= |b| && start + Dashes(b[start..]) == i + Dashes(b[i..])
        {
          assert b[i..][1..] == b[i + 1..];
          i := i + 1;
        }
    }
  }

  method RepositorySegmentIsValid(b: string) returns (r: bool)
    ensures r == NameComponent(b)
  {
    hide NameComponent, RunLen, SeparatorLen;
    ScanDecidesGrammar(b);
    assert b[0..] == b;
    var i := Run(b, 0);
    if i == 0 { return false; }
    while i < |b|
      invariant i <= |b| && Scan(b) == ScanTail(b[i..])
    {
      ScanRound(b, i);
      var j := SkipSeparator(b, i);
      if j == i { return false; }
      var k := Run(b, j);
      if k == j { return false; }
      i := k;
    }
    r := true;
  }

  lemma ScanRound(b: string, i: nat)
    requires i < |b|
    ensures var n := SeparatorLen(b[i..]);
            var m := RunLen(b[i + n..]);
            ScanTail(b[i..]) == (n > 0 && m > 0 && ScanTail(b[i + n + m..]))
  {
    hide SeparatorLen, RunLen;
    var n := SeparatorLen(b[i..]);
    assert b[i..][n..] == b[i + n..];
    var m := RunLen(b[i + n..]);
    assert b[i + n..][m..] == b[i + n + m..];
  }

  lemma {:induction false} RunLenIs(run: string, rest: string)
    requires forall i :: 0 <= i < |run| ==> AlNum(run[i])
    requires rest == "" || !AlNum(rest[0])
    ensures RunLen(run + rest) == |run|
  {
    if run == "" {
      assert run + rest == rest;
    } else {
      assert (run + rest)[1..] == run[1..] + rest;
      RunLenIs(run[1..], rest);
    }
  }

  lemma {:induction false} DashesIs(sep: string, rest: string)
    requires forall i :: 0 <= i < |sep| ==> sep[i] == '-'
    requires rest != "" && AlNum(rest[0])
    ensures Dashes(sep + rest) == |sep|
  {
    if sep == "" {
      assert sep + rest == rest;
    } else {
      assert (sep + rest)[1..] == sep[1..] + rest;
      DashesIs(sep[1..], rest);
    }
  }

  lemma SeparatorLenIs(sep: string, rest: string)
    requires IsSeparator(sep) && rest != "" && AlNum(rest[0])
    ensures SeparatorLen(sep + rest) == |sep|
  {
    var s := sep + rest;
    assert s[0] == sep[0];
    if sep[0] == '-' { DashesIs(sep, rest); }
    else if sep == "_" { assert s[1] == rest[0]; }
  }

  lemma PartsTextStart(parts: seq<Part>)
    requires PartsOk(parts)
    ensures PartsText(parts) == "" || !AlNum(PartsText(parts)[0])
  {
    if parts != [] { assert PartsText(parts)[0] == parts[0].sep[0]; }
  }

  lemma {:induction false} ScanAcceptsParts(parts: seq<Part>)
    requires PartsOk(parts)
    ensures ScanTail(PartsText(parts))
  {
    if parts != [] {
      var p, rest := parts[0], PartsText(parts[1..]);
      ScanAcceptsParts(parts[1..]);
      PartsTextStart(parts[1..]);
      var tail := p.run + rest;
      var s := p.sep + tail;
      assert tail[0] == p.run[0];
      SeparatorLenIs(p.sep, tail);
      RunLenIs(p.run, rest);
      assert s[|p.sep|..] == tail && tail[|p.run|..] == rest;
    }
  }

  lemma {:induction false} RunPrefix(s: string)
    ensures forall i :: 0 <= i < RunLen(s) ==> AlNum(s[i])
  {
    if s != "" && AlNum(s[0]) {
      RunPrefix(s[1..]);
      forall i | 0 <= i < RunLen(s) ensures AlNum(s[i]) {
        if i > 0 { assert s[i] == s[1..][i - 1]; }
      }
    }
  }

  lemma {:induction false} DashPrefix(s: string)
    ensures forall i :: 0 <= i < Dashes(s) ==> s[i] == '-'
  {
    if s != "" && s[0] == '-' {
      DashPrefix(s[1..]);
      forall i | 0 <= i < Dashes(s) ensures s[i] == '-' {
        if i > 0 { assert s[i] == s[1..][i - 1]; }
      }
    }
  }

  lemma SeparatorFound(s: string)
    requires s != "" && SeparatorLen(s) > 0
    ensures IsSeparator(s[..SeparatorLen(s)])
  {
    DashPrefix(s);
  }

  lemma RunFound(s: string)
    requires RunLen(s) > 0
    ensures IsRun(s[..RunLen(s)])
  {
    RunPrefix(s);
  }

  lemma AddPart(sep: string, run: string, rest: seq<Part>, s: string)
    requires IsSeparator(sep) && IsRun(run) && PartsOk(rest) && s == sep + (run + PartsText(rest))
    ensures PartsOk([Part(sep, run)] + rest) && PartsText([Part(sep, run)] + rest) == s
  {
    hide IsSeparator, IsRun;
    assert ([Part(sep, run)] + rest)[1..] == rest;
  }

  lemma NoParts()
    ensures PartsOk([]) && PartsText([]) == ""
  {}

  lemma {:induction false} ScanTailParses(s: string) returns (parts: seq<Part>)
    requires ScanTail(s)
    ensures PartsOk(parts) && PartsText(parts) == s
    decreases |s|
  {
    hide SeparatorLen, RunLen, IsSeparator, IsRun, PartsOk, PartsText;
    if s == "" {
      NoParts();
      parts := [];
    } else {
      var n := SeparatorLen(s);
      var tail := s[n..];
      var m := RunLen(tail);
      SeparatorFound(s);
      RunFound(tail);
      var rest := ScanTailParses(tail[m..]);
      assert s == s[..n] + (tail[..m] + tail[m..]);
      AddPart(s[..n], tail[..m], rest, s);
      parts := [Part(s[..n], tail[..m])] + rest;
    }
  }

  lemma RunChars(run: string)
    requires IsRun(run)
    ensures |run| > 0 && forall i :: 0 <= i < |run| ==> AlNum(run[i])
  {}

  /** The hand-written scanner decides the grammar. */
  lemma ScanDecidesGrammar(s: string)
    ensures Scan(s) <==> NameComponent(s)
  {
    hide RunLen, ScanTail, IsRun, PartsOk, PartsText;
    if Scan(s) {
      var n := RunLen(s);
      RunFound(s);
      var parts := ScanTailParses(s[n..]);
      assert IsRun(s[..n]) && s == s[..n] + PartsText(parts);
    }
    if NameComponent(s) {
      var run, parts :| IsRun(run) && PartsOk(parts) && s == run + PartsText(parts);
      PartsTextStart(parts);
      RunChars(run);
      RunLenIs(run, PartsText(parts));
      ScanAcceptsParts(parts);
      assert s[|run|..] == PartsText(parts);
    }
  }

  // ------------------------------------------------------------------- paths

  /** `split('/')` */
  function Split(s: string): (r: seq<string>)
    ensures r != []
  {
    if s == "" then [""]
    else if s[0] == '/' then [""] + Split(s[1..])
    else var r := Split(s[1..]); [[s[0]] + r[0]] + r[1..]
  }

  /** `join("/")` */
  function Join(segments: seq<string>): string {
    if segments == [] then ""
    else if |segments| == 1 then segments[0]
    else segments[0] + ("/" + Join(segments[1..]))
  }

  /** A segment that names a child: not empty, `.` or `..`. */
  predicate Proper(s: string) {
    s != "" && s != "." && s != ".." && NoSlash(s)
  }

  predicate AllProper(segments: seq<string>) {
    forall i :: 0 <= i < |segments| ==> Proper(segments[i])
  }

  /** The loop's `out` and `dotdot` after more segments. */
  function CleanFrom(rooted: bool, out: seq<string>, dotdot: nat, segments: seq<string>): seq<string>
    decreases |segments|
  {
    if segments == [] then out
    else
      var s, rest := segments[0], segments[1..];
      if s == "" || s == "." then CleanFrom(rooted, out, dotdot, rest)
      else if s == ".." then
        if |out| > dotdot then CleanFrom(rooted, out[..|out| - 1], dotdot, rest)
        else if !rooted then CleanFrom(rooted, out + [".."], |out| + 1, rest)
        else CleanFrom(rooted, out, dotdot, rest)
      else CleanFrom(rooted, out + [s], dotdot, rest)
  }

  function Rendered(rooted: bool, out: seq<string>): string {
    var joined := Join(out);
    if rooted then "/" + joined else if joined == "" then "." else joined
  }

  predicate Rooted(p: string) {
    p != "" && p[0] == '/'
  }

  function PathClean(p: string): string {
    Rendered(Rooted(p), CleanFrom(Rooted(p), [], 0, Split(p)))
  }

  method CleanPath(p: string) returns (r: string)
    ensures r == PathClean(p)
  {
    if p == "" {
      assert Split(p) == [""] && [""][1..] == [];
      assert CleanFrom(false, [], 0, [""]) == CleanFrom(false, [], 0, [""][1..]);
      return ".";
    }
    var rooted := p[0] == '/';
    var out: seq<string>, dotdot: nat, segments := [], 0, Split(p);
    var i := 0;
    assert segments[0..] == segments;
    while i < |segments|
      invariant i <= |segments|
      invariant CleanFrom(rooted, [], 0, segments) == CleanFrom(rooted, out, dotdot, segments[i..])
    {
      var s := segments[i];
      assert segments[i..][0] == s && segments[i..][1..] == segments[i + 1..];
      if s == "" || s == "." {
      } else if s == ".." {
        if |out| > dotdot {
          out := out[..|out| - 1];
        } else if !rooted {
          out := out + [".."];
          dotdot := |out|;
        }
      } else {
        out := out + [s];
      }
      i := i + 1;
    }
    var joined := Join(out);
    r := if rooted then "/" + joined else if joined == "" then "." else joined;
  }

  function NormalizedPath(p: string): bool {
    p == "" ||
    var cleaned := PathClean(p);
    p == if p[|p| - 1] == '/' && cleaned != "/" then cleaned + "/" else cleaned
  }

  // ---------------------------------------- what a path denotes, and cleaning

  /** Where a path leads from where it starts: so many parents up, then down
      through these children. */
  datatype Node = Node(ups: nat, downs: seq<string>)

  function WalkStep(rooted: bool, at: Node, s: string): Node {
    if s == "" || s == "." then at
    else if s != ".." then Node(at.ups, at.downs + [s])
    else if at.downs != [] then Node(at.ups, at.downs[..|at.downs| - 1])
    else if rooted then at
    else Node(at.ups + 1, [])
  }

  function Walk(rooted: bool, at: Node, segments: seq<string>): Node
    decreases |segments|
  {
    if segments == [] then at else Walk(rooted, WalkStep(rooted, at, segments[0]), segments[1..])
  }

  function Resolve(p: string): Node {
    Walk(Rooted(p), Node(0, []), Split(p))
  }

  function Parents(n: nat): (s: seq<string>)
    ensures |s| == n && forall i :: 0 <= i < n ==> s[i] == ".."
  {
    seq(n, _ => "..")
  }

  /** The loop's mixed stack is the node: `..` as often as `dotdot` says, then
      the children. */
  lemma {:induction false} CleanIsWalk(rooted: bool, at: Node, segments: seq<string>)
    requires rooted ==> at.ups == 0
    ensures var z := Walk(rooted, at, segments);
            && CleanFrom(rooted, Parents(at.ups) + at.downs, at.ups, segments) == Parents(z.ups) + z.downs
            && (rooted ==> z.ups == 0)
    decreases |segments|
  {
    if segments != [] {
      var s, out := segments[0], Parents(at.ups) + at.downs;
      if s == "" || s == "." {
        CleanIsWalk(rooted, at, segments[1..]);
      } else if s != ".." {
        assert out + [s] == Parents(at.ups) + (at.downs + [s]);
        CleanIsWalk(rooted, Node(at.ups, at.downs + [s]), segments[1..]);
      } else if at.downs != [] {
        assert out[..|out| - 1] == Parents(at.ups) + at.downs[..|at.downs| - 1];
        CleanIsWalk(rooted, Node(at.ups, at.downs[..|at.downs| - 1]), segments[1..]);
      } else if rooted {
        CleanIsWalk(rooted, at, segments[1..]);
      } else {
        assert out + [".."] == Parents(at.ups + 1) + [];
        CleanIsWalk(rooted, Node(at.ups + 1, []), segments[1..]);
      }
    }
  }

  lemma {:induction false} SplitNoSlash(s: string)
    ensures forall i :: 0 <= i < |Split(s)| ==> NoSlash(Split(s)[i])
  {
    if s != "" { SplitNoSlash(s[1..]); }
  }

  lemma {:induction false} WalkProper(rooted: bool, at: Node, segments: seq<string>)
    requires AllProper(at.downs) && forall i :: 0 <= i < |segments| ==> NoSlash(segments[i])
    ensures AllProper(Walk(rooted, at, segments).downs)
    decreases |segments|
  {
    if segments != [] {
      var s, rest := segments[0], segments[1..];
      if s == "" || s == "." { WalkProper(rooted, at, rest); }
      else if s != ".." { WalkProper(rooted, Node(at.ups, at.downs + [s]), rest); }
      else if at.downs != [] { WalkProper(rooted, Node(at.ups, at.downs[..|at.downs| - 1]), rest); }
      else if rooted { WalkProper(rooted, at, rest); }
      else { WalkProper(rooted, Node(at.ups + 1, []), rest); }
    }
  }

  lemma {:induction false} SplitOne(s: string)
    requires NoSlash(s)
    ensures Split(s) == [s]
  {
    if s != "" {
      SplitOne(s[1..]);
      assert [s[0]] + s[1..] == s;
    }
  }

  lemma {:induction false} SplitAtSlash(s: string, rest: string)
    requires NoSlash(s)
    ensures Split(s + ("/" + rest)) == [s] + Split(rest)
  {
    if s == "" {
      assert s + ("/" + rest) == "/" + rest && ("/" + rest)[1..] == rest;
    } else {
      SplitAtSlash(s[1..], rest);
      var t := s + ("/" + rest);
      assert t[1..] == s[1..] + ("/" + rest);
      assert [s[0]] + s[1..] == s;
    }
  }

  /** Splitting undoes joining. */
  lemma {:induction false} SplitJoin(segments: seq<string>)
    requires segments != [] && forall i :: 0 <= i < |segments| ==> NoSlash(segments[i])
    ensures Split(Join(segments)) == segments
  {
    if |segments| == 1 {
      SplitOne(segments[0]);
    } else {
      SplitJoin(segments[1..]);
      SplitAtSlash(segments[0], Join(segments[1..]));
      assert [segments[0]] + segments[1..] == segments;
    }
  }

  /** Joining undoes splitting. */
  lemma {:induction false} JoinSplit(s: string)
    ensures Join(Split(s)) == s
  {
    if s != "" {
      JoinSplit(s[1..]);
      var r := Split(s[1..]);
      if s[0] == '/' {
        assert ([""] + r)[1..] == r;
        assert "" + ("/" + s[1..]) == s;
      } else {
        var t := [[s[0]] + r[0]] + r[1..];
        assert t[1..] == r[1..];
        if |r| > 1 {
          assert ([s[0]] + r[0]) + ("/" + Join(r[1..])) == [s[0]] + (r[0] + ("/" + Join(r[1..])));
        }
        assert [s[0]] + s[1..] == s;
      }
    }
  }

  lemma {:induction false} WalkDown(rooted: bool, at: Node, segments: seq<string>)
    requires AllProper(segments)
    ensures Walk(rooted, at, segments) == Node(at.ups, at.downs + segments)
    decreases |segments|
  {
    if segments == [] {
      assert at.downs + [] == at.downs;
    } else {
      assert Proper(segments[0]);
      WalkDown(rooted, Node(at.ups, at.downs + [segments[0]]), segments[1..]);
      assert (at.downs + [segments[0]]) + segments[1..] == at.downs + segments;
    }
  }

  lemma {:induction false} WalkUp(n: nat, at: Node, rest: seq<string>)
    requires at.downs == []
    ensures Walk(false, at, Parents(n) + rest) == Walk(false, Node(at.ups + n, []), rest)
    decreases n
  {
    if n == 0 {
      assert Parents(0) + rest == rest;
    } else {
      var s := Parents(n) + rest;
      assert s[0] == ".." && s[1..] == Parents(n - 1) + rest;
      WalkUp(n - 1, Node(at.ups + 1, []), rest);
    }
  }

  /** A rendered node leads back to itself. */
  lemma RenderedResolves(rooted: bool, z: Node)
    requires AllProper(z.downs) && (rooted ==> z.ups == 0)
    ensures var p := Rendered(rooted, Parents(z.ups) + z.downs);
            Rooted(p) == rooted && Resolve(p) == z && p != ""
  {
    var out := Parents(z.ups) + z.downs;
    var p := Rendered(rooted, out);
    if rooted {
      assert out == z.downs;
      assert p == "" + ("/" + Join(out));
      SplitAtSlash("", Join(out));
      if out == [] {
        assert Split("") == [""];
        assert Walk(true, Node(0, []), [""] + [""]) == Node(0, []);
      } else {
        SplitJoin(out);
        WalkSkips(true, Node(0, []), out);
        WalkDown(true, Node(0, []), out);
        assert [] + out == out;
      }
    } else if out == [] {
      assert Split(".") == ["."] by { SplitOne("."); }
      assert Walk(false, Node(0, []), ["."]) == Node(0, []);
      assert z.downs == [];
    } else {
      JoinStart(out);
      SplitJoin(out);
      WalkUp(z.ups, Node(0, []), z.downs);
      WalkDown(false, Node(z.ups, []), z.downs);
      assert [] + z.downs == z.downs;
    }
  }

  lemma WalkSkips(rooted: bool, at: Node, segments: seq<string>)
    ensures Walk(rooted, at, [""] + segments) == Walk(rooted, at, segments)
  {
    assert ([""] + segments)[1..] == segments;
  }

  lemma JoinStart(out: seq<string>)
    requires out != [] && out[0] != "" && NoSlash(out[0])
    ensures Join(out) != "" && Join(out)[0] != '/'
  {}

  /** Cleaning a path keeps where it leads, and its rootedness. */
  lemma CleanDenotesSameNode(p: string)
    ensures PathClean(p) != ""
    ensures Rooted(PathClean(p)) == Rooted(p) && Resolve(PathClean(p)) == Resolve(p)
    ensures PathClean(p) == Rendered(Rooted(p), Parents(Resolve(p).ups) + Resolve(p).downs)
    ensures AllProper(Resolve(p).downs) && (Rooted(p) ==> Resolve(p).ups == 0)
  {
    CleanIsWalk(Rooted(p), Node(0, []), Split(p));
    assert Parents(0) + [] == [];
    SplitNoSlash(p);
    WalkProper(Rooted(p), Node(0, []), Split(p));
    RenderedResolves(Rooted(p), Resolve(p));
  }

  /** The cleaned form is canonical: two paths clean to the same text exactly
      when they start and lead to the same place. So cleaning is idempotent. */
  lemma CleanIsCanonical(p: string, q: string)
    ensures PathClean(p) == PathClean(q) <==> Rooted(p) == Rooted(q) && Resolve(p) == Resolve(q)
    ensures PathClean(PathClean(p)) == PathClean(p)
  {
    CleanDenotesSameNode(p);
    CleanDenotesSameNode(q);
    CleanDenotesSameNode(PathClean(p));
  }

  // --------------------------------------------------------- normalized paths

  /** Every segment behind the root proper, one trailing slash allowed. */
  predicate PlainSegments(segments: seq<string>) {
    segments != [] && AllProper(segments[..|segments| - 1])
    && (var last := segments[|segments| - 1]; last == "" || Proper(last))
  }

  lemma {:induction false} JoinTrailing(segments: seq<string>)
    requires segments != []
    ensures Join(segments + [""]) == Join(segments) + "/"
  {
    var t := segments + [""];
    if |segments| == 1 {
      assert t[1..] == [""];
      assert segments[0] + ("/" + "") == segments[0] + "/";
    } else {
      assert t[1..] == segments[1..] + [""];
      JoinTrailing(segments[1..]);
      assert segments[0] + ("/" + (Join(segments[1..]) + "/")) == (segments[0] + ("/" + Join(segments[1..]))) + "/";
    }
  }

  lemma {:induction false} JoinEnd(segments: seq<string>)
    requires segments != [] && AllProper(segments)
    ensures var j := Join(segments); j != "" && j[|j| - 1] != '/'
  {
    assert Proper(segments[0]);
    if |segments| > 1 { JoinEnd(segments[1..]); }
  }

  lemma Empties()
    ensures Join([]) == "" && Split("") == [""]
    ensures forall out :: Rendered(true, out) == "/" + Join(out)
    ensures forall downs: seq<string> :: Parents(0) + downs == downs
  {}

  /** What the check compares a rooted path with. */
  lemma RootedCleaned(p: string)
    requires Rooted(p)
    ensures var downs := Resolve(p).downs;
            && AllProper(downs) && PathClean(p) == "/" + Join(downs)
            && (PathClean(p) == "/" <==> downs == [])
  {
    hide Walk, CleanFrom, PathClean, Resolve, Split, Join, Rendered;
    CleanDenotesSameNode(p);
    Empties();
    var downs := Resolve(p).downs;
    if downs != [] { JoinEnd(downs); }
  }

  /** A rooted path passes exactly when it has no empty, `.` or `..` segment,
      save one trailing slash. */
  lemma NormalizedIsPlain(p: string)
    requires Rooted(p)
    ensures NormalizedPath(p) <==> PlainSegments(Split(p[1..]))
  {
    hide Walk, CleanFrom, PathClean, Resolve, Split, Join, Rendered, PlainSegments;
    if NormalizedPath(p) {
      RootedCleaned(p);
      var downs := Resolve(p).downs;
      Empties();
      if p == PathClean(p) {
        assert p[1..] == Join(downs);
        if downs != [] { SplitJoin(downs); }
        PlainShapes(downs);
      } else {
        JoinTrailing(downs);
        assert p[1..] == Join(downs + [""]);
        SplitJoin(downs + [""]);
        PlainShapes(downs);
      }
    }
    if PlainSegments(Split(p[1..])) { PlainIsNormalized(p); }
  }

  lemma PlainShapes(downs: seq<string>)
    requires AllProper(downs)
    ensures PlainSegments(if downs == [] then [""] else downs) && PlainSegments(downs + [""])
  {
    assert (downs + [""])[..|downs|] == downs;
  }

  lemma PlainIsNormalized(p: string)
    requires Rooted(p) && PlainSegments(Split(p[1..]))
    ensures NormalizedPath(p)
  {
    hide Walk, CleanFrom, PathClean, Split, Join, Rendered;
    var segments := Split(p[1..]);
    var n := |segments| - 1;
    var mids, last := segments[..n], segments[n];
    assert segments == mids + [last];
    JoinSplit(p[1..]);
    assert p == "/" + Join(segments);
    RootedCleaned(p);
    Empties();
    assert p == "" + ("/" + p[1..]);
    SplitAtSlash("", p[1..]);
    WalkSkips(true, Node(0, []), segments);
    if Proper(last) {
      WalkDown(true, Node(0, []), segments);
      assert [] + segments == segments;
      JoinEnd(segments);
    } else {
      WalkThenEmpty(mids);
      if mids != [] {
        JoinTrailing(mids);
        JoinEnd(mids);
      } else {
        JoinOne("");
      }
    }
  }

  lemma JoinOne(s: string)
    ensures Join([s]) == s
  {}

  lemma WalkThenEmpty(mids: seq<string>)
    requires AllProper(mids)
    ensures Walk(true, Node(0, []), mids + [""]) == Node(0, mids)
  {
    WalkConcat(true, Node(0, []), mids, [""]);
    WalkDown(true, Node(0, []), mids);
    assert [] + mids == mids;
    assert [""][1..] == [];
  }

  lemma {:induction false} WalkConcat(rooted: bool, at: Node, s: seq<string>, t: seq<string>)
    ensures Walk(rooted, at, s + t) == Walk(rooted, Walk(rooted, at, s), t)
    decreases |s|
  {
    if s == [] {
      assert s + t == t;
    } else {
      assert (s + t)[1..] == s[1..] + t;
      WalkConcat(rooted, WalkStep(rooted, at, s[0]), s[1..], t);
    }
  }

  // ----------------------------------------- RFC 3986, section 5.2.4

  /** The output with its last segment and the slash before it removed. */
  function DropLastSegment(out: string): string {
    if out == "" then "" else if out[|out| - 1] == '/' then out[..|out| - 1] else DropLastSegment(out[..|out| - 1])
  }

  function SegmentLen(s: string): (n: nat)
    ensures n <= |s|
  {
    if s == "" || s[0] == '/' then 0 else 1 + SegmentLen(s[1..])
  }

  /** The loop of section 5.2.4, steps A to E, over input and output buffer. */
  function RemoveDotSegments(input: string, out: string): string
    decreases |input|
  {
    if input == "" then out
    else if "../" <= input then RemoveDotSegments(input[3..], out)
    else if "./" <= input then RemoveDotSegments(input[2..], out)
    else if "/./" <= input then RemoveDotSegments(input[2..], out)
    else if input == "/." then out + "/"
    else if "/../" <= input then RemoveDotSegments(input[3..], DropLastSegment(out))
    else if input == "/.." then DropLastSegment(out) + "/"
    else if input == "." || input == ".." then out
    else
      var n := (if input[0] == '/' then 1 else 0) + SegmentLen(if input[0] == '/' then input[1..] else input);
      RemoveDotSegments(input[n..], out + input[..n])
  }

  lemma {:induction false} SegmentLenIs(s: string, rest: string)
    requires NoSlash(s) && (rest == "" || rest[0] == '/')
    ensures SegmentLen(s + rest) == |s|
  {
    if s == "" {
      assert s + rest == rest;
    } else {
      assert (s + rest)[1..] == s[1..] + rest;
      SegmentLenIs(s[1..], rest);
    }
  }

  /** A plain segment is moved over whole: only step E applies to it. */
  lemma PlainStep(s: string, rest: string, out: string)
    requires NoSlash(s) && s != "." && s != ".." && (rest == "" || rest[0] == '/')
    ensures RemoveDotSegments("/" + (s + rest), out) == RemoveDotSegments(rest, out + ("/" + s))
  {
    hide DropLastSegment, SegmentLen;
    var input := "/" + (s + rest);
    SegmentLenIs(s, rest);
    assert input[1..] == s + rest;
    NotDots(s, rest);
    var n := 1 + |s|;
    assert input[..n] == "/" + s && input[n..] == rest;
  }

  /** The buffer starts with a dot segment only if the segment is one. */
  lemma NotDots(s: string, rest: string)
    requires NoSlash(s) && (rest == "" || rest[0] == '/')
    ensures var input := "/" + (s + rest);
            && ("/./" <= input || input == "/." ==> s == ".")
            && ("/../" <= input || input == "/.." ==> s == "..")
            && !("../" <= input) && !("./" <= input) && input != "." && input != ".."
  {
    var input := "/" + (s + rest);
    assert input[0] == '/';
    assert "../"[0] == '.' && "./"[0] == '.' && "."[0] == '.' && ".."[0] == '.';
    assert forall k :: 0 <= k < |s| ==> input[k + 1] == s[k];
    assert rest != "" ==> input[|s| + 1] == '/';
    if "/./" <= input || input == "/." {
      assert input[1] == '.' && (|input| == 2 || input[2] == '/');
      OneDot(s, rest, input);
    }
    if "/../" <= input || input == "/.." {
      assert input[1] == '.' && input[2] == '.' && (|input| == 3 || input[3] == '/');
      TwoDots(s, rest, input);
    }
  }

  lemma OneDot(s: string, rest: string, input: string)
    requires NoSlash(s) && (rest == "" || rest[0] == '/') && input == "/" + (s + rest)
    requires |input| >= 2 && input[1] == '.' && (|input| == 2 || input[2] == '/')
    ensures s == "."
  {
    assert forall k :: 0 <= k < |s| ==> input[k + 1] == s[k];
    assert rest != "" ==> input[|s| + 1] == '/';
  }

  lemma TwoDots(s: string, rest: string, input: string)
    requires NoSlash(s) && (rest == "" || rest[0] == '/') && input == "/" + (s + rest)
    requires |input| >= 3 && input[1] == '.' && input[2] == '.' && (|input| == 3 || input[3] == '/')
    ensures s == ".."
  {
    assert forall k :: 0 <= k < |s| ==> input[k + 1] == s[k];
    assert rest != "" ==> input[|s| + 1] == '/';
  }

  lemma {:induction false} LastDropped(out: string, s: string)
    requires NoSlash(s)
    ensures DropLastSegment(out + ("/" + s)) == out
    decreases |s|
  {
    var t := out + ("/" + s);
    if s == "" {
      assert t[..|t| - 1] == out;
    } else {
      assert t[..|t| - 1] == out + ("/" + s[..|s| - 1]);
      LastDropped(out, s[..|s| - 1]);
    }
  }

  /** Steps A to D: `.` goes, `..` takes the segment before it along. */
  lemma DotSegmentsGo(s: string, rest: string, out: string)
    requires NoSlash(s) && s != "." && s != ".."
    ensures RemoveDotSegments("/./" + rest, out) == RemoveDotSegments("/" + rest, out)
    ensures RemoveDotSegments("/" + (s + ("/../" + rest)), out) == RemoveDotSegments("/" + rest, out)
    ensures RemoveDotSegments("/.", out) == out + "/" && RemoveDotSegments("/" + (s + "/.."), out) == out + "/"
    ensures RemoveDotSegments("./" + rest, out) == RemoveDotSegments(rest, out)
    ensures RemoveDotSegments("../" + rest, out) == RemoveDotSegments(rest, out)
    ensures RemoveDotSegments(".", out) == out && RemoveDotSegments("..", out) == out && RemoveDotSegments("", out) == out
  {
    hide *;
    PlainStep(s, "/../" + rest, out);
    PlainStep(s, "/..", out);
    LastDropped(out, s);
    OneUp(rest, out + ("/" + s));
    StepOver("/./", rest);
    StepOver("./", rest);
    StepOver("../", rest);
    SlashDot("/./" + rest, out);
    LeadingDots("./" + rest, out);
    LeadingDots("../" + rest, out);
    Ends(out);
  }

  lemma StepOver(dots: string, rest: string)
    ensures dots <= dots + rest && forall k :: 0 <= k <= |dots| ==> (dots + rest)[k..] == dots[k..] + rest
  {}

  lemma OneUp(rest: string, out: string)
    ensures RemoveDotSegments("/../" + rest, out) == RemoveDotSegments("/" + rest, DropLastSegment(out))
    ensures RemoveDotSegments("/..", out) == DropLastSegment(out) + "/"
  {
    hide DropLastSegment, SegmentLen;
    var input := "/../" + rest;
    assert input[3..] == "/" + rest && input[0] == '/' && input[1] == '.' && input[2] == '.';
  }

  lemma SlashDot(input: string, out: string)
    requires "/./" <= input
    ensures RemoveDotSegments(input, out) == RemoveDotSegments(input[2..], out)
  {
    hide DropLastSegment, SegmentLen;
    assert input[0] == '/';
  }

  lemma LeadingDots(input: string, out: string)
    ensures "./" <= input ==> RemoveDotSegments(input, out) == RemoveDotSegments(input[2..], out)
    ensures "../" <= input ==> RemoveDotSegments(input, out) == RemoveDotSegments(input[3..], out)
  {
    hide DropLastSegment, SegmentLen;
    if "../" <= input { assert input[1] == '.'; }
    if "./" <= input { assert input[0] == '.' && input[1] == '/'; }
  }

  lemma Ends(out: string)
    ensures RemoveDotSegments(".", out) == out && RemoveDotSegments("..", out) == out && RemoveDotSegments("", out) == out
    ensures RemoveDotSegments("/.", out) == out + "/"
  {
    hide DropLastSegment, SegmentLen;
    assert "."[0] == '.' && ".."[0] == '.' && "/."[0] == '/' && "/."[1] == '.';
    assert "../"[0] == '.' && "./"[0] == '.' && "/./"[0] == '/' && "/../"[0] == '/' && "/.."[0] == '/';
    assert ".."[1] == '.' && "./"[1] == '/';
  }

  lemma {:induction false} PlainSurvives(segments: seq<string>, out: string)
    requires PlainSegments(segments)
    ensures RemoveDotSegments("/" + Join(segments), out) == out + ("/" + Join(segments))
    decreases |segments|
  {
    hide RemoveDotSegments;
    var s := segments[0];
    if |segments| == 1 {
      PlainStep(s, "", out);
      assert s + "" == s;
      EmptyInput(out + ("/" + s));
    } else {
      assert Proper(segments[..|segments| - 1][0]);
      var rest := "/" + Join(segments[1..]);
      PlainStep(s, rest, out);
      TailPlain(segments);
      PlainSurvives(segments[1..], out + ("/" + s));
      assert (out + ("/" + s)) + rest == out + ("/" + (s + rest));
    }
  }

  lemma TailPlain(segments: seq<string>)
    requires PlainSegments(segments) && |segments| > 1
    ensures PlainSegments(segments[1..])
  {
    var n := |segments| - 1;
    assert segments[1..][..n - 1] == segments[..n][1..];
  }

  lemma EmptyInput(out: string)
    ensures RemoveDotSegments("", out) == out
  {}

  /** A rooted path the rules accept is left alone by the dot-segment removal a
      server applies: no accepted prefix can be escaped by it. */
  lemma NormalizedSurvivesDotRemoval(p: string)
    requires Rooted(p) && NormalizedPath(p)
    ensures RemoveDotSegments(p, "") == p
  {
    hide RemoveDotSegments;
    NormalizedIsPlain(p);
    var segments := Split(p[1..]);
    JoinSplit(p[1..]);
    PlainSurvives(segments, "");
    assert "/" + p[1..] == p && "" + p == p;
  }
}
