/** Per-IP features from the grouped request log, and the ordered rules that score them. */
module Detection {
  import opened Wrappers
  import opened Text

  /** One logged request; `ts` in whole seconds, as the table stores it. */
  datatype Request = Request(ip: Option<string>, path: string, status: int, ts: int)

  /** One `GROUP BY ip, path, status` row. */
  datatype AggRow = AggRow(ip: string, path: string, status: int, count: nat)

  datatype IpFeatures = IpFeatures(ip: string, total: nat, distinctPaths: nat, distinct404: nat,
                                   errors: nat, signatureHits: nat)

  // ---- Signature paths ----

  const SIGNATURE_PATTERNS: seq<string> := [
    ".php", ".asp", ".aspx", ".jsp", "wp-login", "wp-admin", "wp-content", "wp-includes", "xmlrpc",
    "/.env", "/.git", "/.aws", "/.ssh", "/.svn", "phpmyadmin", "/cgi-bin/", "/vendor/phpunit",
    "/.vscode", "/.idea"]

  predicate IsSignaturePath(path: string) {
    exists k :: 0 <= k < |SIGNATURE_PATTERNS| && Contains(AsciiLower(path), SIGNATURE_PATTERNS[k])
  }

  /** A path is a probe's exactly when some piece of it is one of the patterns, letter case aside. */
  lemma SignatureIff(path: string)
    ensures IsSignaturePath(path) <==>
            exists pre, piece, post :: IsPiece(path, pre, piece, post) && AsciiLower(piece) in SIGNATURE_PATTERNS
  {
    hide AsciiLower, Contains, IsPiece, SIGNATURE_PATTERNS;
    if IsSignaturePath(path) {
      var k :| 0 <= k < |SIGNATURE_PATTERNS| && Contains(AsciiLower(path), SIGNATURE_PATTERNS[k]);
      var pre, piece, post := PieceAt(path, SIGNATURE_PATTERNS[k]);
      assert IsPiece(path, pre, piece, post) && AsciiLower(piece) in SIGNATURE_PATTERNS;
    }
    if pre, piece, post :| IsPiece(path, pre, piece, post) && AsciiLower(piece) in SIGNATURE_PATTERNS {
      PieceOccurs(path, pre, piece, post);
      var k :| 0 <= k < |SIGNATURE_PATTERNS| && SIGNATURE_PATTERNS[k] == AsciiLower(piece);
    }
  }

  // ---- Which addresses are scored at all ----

  datatype IpAddr = V4(a: int, b: int, c: int, d: int) | V6(segments: seq<int>)

  predicate IsLocalScope(addr: IpAddr) {
    match addr
    case V4(a, b, c, d) =>
      a == 127 || (a == 0 && b == 0 && c == 0 && d == 0)
      || a == 10 || (a == 172 && 16 <= b < 32) || (a == 192 && b == 168) || (a == 169 && b == 254)
    case V6(s) =>
      s == [0, 0, 0, 0, 0, 0, 0, 1] || s == [0, 0, 0, 0, 0, 0, 0, 0]
      || (s != [] && (0xfc00 <= s[0] < 0xfe00 || 0xfe80 <= s[0] < 0xfec0))
  }

  /** Each part is in its range. */
  predicate IsAddress(addr: IpAddr) {
    match addr
    case V4(a, b, c, d) => 0 <= a < 256 && 0 <= b < 256 && 0 <= c < 256 && 0 <= d < 256
    case V6(s) => |s| == 8 && forall i :: 0 <= i < 8 ==> 0 <= s[i] < 0x1_0000
  }

  /** An IPv4 address as one number. */
  function Number(a: int, b: int, c: int, d: int): int { ((a * 256 + b) * 256 + c) * 256 + d }

  /** The addresses left out, by network: 127.0.0.0/8, 10.0.0.0/8, 172.16.0.0/12, 192.168.0.0/16, 169.254.0.0/16,
      fc00::/7, fe80::/10, and the three single addresses 0.0.0.0, :: and ::1. */
  lemma LocalScopeIff(addr: IpAddr)
    requires IsAddress(addr)
    ensures IsLocalScope(addr) <==>
            match addr
            case V4(a, b, c, d) =>
              var n := Number(a, b, c, d);
              n == 0 || n / 0x100_0000 in {127, 10} || n / 0x10_0000 == 172 * 16 + 1 ||
              n / 0x1_0000 in {192 * 256 + 168, 169 * 256 + 254}
            case V6(s) =>
              s[0] / 0x200 == 0xfc00 / 0x200 || s[0] / 0x40 == 0xfe80 / 0x40 ||
              (s[7] <= 1 && forall i :: 0 <= i < 7 ==> s[i] == 0)
  {
    match addr
    case V4(a, b, c, d) =>
      assert Number(a, b, c, d) / 0x1_0000 == a * 256 + b;
    case V6(s) =>
      assert s == [s[0], s[1], s[2], s[3], s[4], s[5], s[6], s[7]];
  }

  /** The address parser is the standard library's; it stays a parameter. */
  type Parser = string -> Option<IpAddr>

  predicate ShouldEvaluate(parse: Parser, ip: string) {
    parse(ip).Some? && !IsLocalScope(parse(ip).value)
  }

  // ---- The aggregation loop ----

  datatype Acc = Acc(total: nat, errors: nat, signatureHits: nat, paths: set<string>, paths404: set<string>)

  const EMPTY: Acc := Acc(0, 0, 0, {}, {})

  function AddRow(a: Acc, r: AggRow): Acc {
    Acc(a.total + r.count,
        if r.status >= 400 then a.errors + r.count else a.errors,
        if r.status >= 400 && IsSignaturePath(r.path) then a.signatureHits + r.count else a.signatureHits,
        a.paths + {r.path},
        if r.status == 404 then a.paths404 + {r.path} else a.paths404)
  }

  /** The accumulator of one IP after the rows so far. */
  function AccOf(rows: seq<AggRow>, ip: string): Acc {
    if rows == [] then EMPTY
    else
      var a := AccOf(rows[..|rows| - 1], ip);
      var r := rows[|rows| - 1];
      if r.ip == ip then AddRow(a, r) else a
  }

  function Finish(ip: string, a: Acc): IpFeatures {
    IpFeatures(ip, a.total, |a.paths|, |a.paths404|, a.errors, a.signatureHits)
  }

  predicate HasRow(rows: seq<AggRow>, ip: string) {
    exists i :: 0 <= i < |rows| && rows[i].ip == ip
  }

  /** The list BuildFeatures may return: one entry per evaluated IP of the rows, in any order. */
  ghost predicate AreFeaturesOf(parse: Parser, rows: seq<AggRow>, fs: seq<IpFeatures>) {
    && (forall i, j :: 0 <= i < j < |fs| ==> fs[i].ip != fs[j].ip)
    && (forall i :: 0 <= i < |fs| ==> HasRow(rows, fs[i].ip) && ShouldEvaluate(parse, fs[i].ip))
    && (forall i :: 0 <= i < |fs| ==> fs[i] == Finish(fs[i].ip, AccOf(rows, fs[i].ip)))
    && (forall ip :: HasRow(rows, ip) && ShouldEvaluate(parse, ip) ==> Lists(fs, ip))
  }

  /** The loop over the rows, into a hash map of accumulators. */
  method Accumulate(parse: Parser, rows: seq<AggRow>) returns (accs: map<string, Acc>)
    ensures forall ip :: ip in accs <==> HasRow(rows, ip) && ShouldEvaluate(parse, ip)
    ensures forall ip :: ip in accs ==> accs[ip] == AccOf(rows, ip)
  {
    hide IsSignaturePath, ShouldEvaluate, AddRow;
    accs := map[];
    for i := 0 to |rows|
      invariant forall ip :: ip in accs <==> HasRow(rows[..i], ip) && ShouldEvaluate(parse, ip)
      invariant forall ip :: ip in accs ==> accs[ip] == AccOf(rows[..i], ip)
      invariant forall ip :: !HasRow(rows[..i], ip) ==> AccOf(rows[..i], ip) == EMPTY
    {
      var r := rows[i];
      assert rows[..i + 1][..i] == rows[..i];
      forall ip
        ensures HasRow(rows[..i + 1], ip) <==> HasRow(rows[..i], ip) || r.ip == ip
      {
        HasRowStep(rows, i, ip);
      }
      if ShouldEvaluate(parse, r.ip) {
        var acc := if r.ip in accs then accs[r.ip] else EMPTY;
        accs := accs[r.ip := AddRow(acc, r)];
      }
    }
    assert rows[..|rows|] == rows;
  }

  predicate Lists(fs: seq<IpFeatures>, ip: string) {
    exists i :: 0 <= i < |fs| && fs[i].ip == ip
  }

  /** The hash map is drained in an arbitrary order. */
  method Drain(accs: map<string, Acc>) returns (fs: seq<IpFeatures>)
    ensures forall i, j :: 0 <= i < j < |fs| ==> fs[i].ip != fs[j].ip
    ensures forall i :: 0 <= i < |fs| ==> fs[i].ip in accs && fs[i] == Finish(fs[i].ip, accs[fs[i].ip])
    ensures forall ip :: ip in accs ==> Lists(fs, ip)
  {
    hide Finish, Lists;
    var rest := accs;
    fs := [];
    while rest != map[]
      invariant rest.Keys <= accs.Keys && forall ip :: ip in rest ==> rest[ip] == accs[ip]
      invariant forall i :: 0 <= i < |fs| ==> fs[i].ip in accs && fs[i].ip !in rest
      invariant forall i :: 0 <= i < |fs| ==> fs[i] == Finish(fs[i].ip, accs[fs[i].ip])
      invariant forall i, j :: 0 <= i < j < |fs| ==> fs[i].ip != fs[j].ip
      invariant forall ip :: ip in accs ==> ip in rest || Lists(fs, ip)
      decreases |rest|
    {
      var ip :| ip in rest;
      var f := Finish(ip, rest[ip]);
      FinishKeepsIp(ip, rest[ip]);
      ListsMore(fs, f);
      fs := fs + [f];
      rest := rest - {ip};
    }
  }

  lemma ListsMore(fs: seq<IpFeatures>, f: IpFeatures)
    ensures forall ip :: Lists(fs + [f], ip) <==> Lists(fs, ip) || ip == f.ip
  {
    forall ip
      ensures Lists(fs + [f], ip) <==> Lists(fs, ip) || ip == f.ip
    {
      if i :| 0 <= i < |fs| && fs[i].ip == ip {
        assert (fs + [f])[i].ip == ip;
      }
      assert (fs + [f])[|fs|].ip == f.ip;
    }
  }

  lemma FinishKeepsIp(ip: string, a: Acc)
    ensures Finish(ip, a).ip == ip
  {
  }

  method BuildFeatures(parse: Parser, rows: seq<AggRow>) returns (fs: seq<IpFeatures>)
    ensures AreFeaturesOf(parse, rows, fs)
  {
    hide ShouldEvaluate, AccOf, HasRow, Finish;
    var accs := Accumulate(parse, rows);
    fs := Drain(accs);
  }

  lemma HasRowStep(rows: seq<AggRow>, i: nat, ip: string)
    requires i < |rows|
    ensures HasRow(rows[..i + 1], ip) <==> HasRow(rows[..i], ip) || rows[i].ip == ip
  {
    var next := rows[..i + 1];
    if HasRow(rows[..i], ip) {
      var j :| 0 <= j < i && rows[..i][j].ip == ip;
      assert next[j].ip == ip;
    }
    if rows[i].ip == ip {
      assert next[i].ip == ip;
    }
    if HasRow(next, ip) {
      var j :| 0 <= j < |next| && next[j].ip == ip;
      assert j < i ==> rows[..i][j].ip == ip;
    }
  }

  // ---- The features read straight off the log ----

  /** How many entries of the log satisfy `p`. */
  function Count(log: seq<Request>, p: Request -> bool): nat {
    if log == [] then 0 else Count(log[..|log| - 1], p) + (if p(log[|log| - 1]) then 1 else 0)
  }

  /** The distinct paths of the entries that satisfy `p`. */
  function Paths(log: seq<Request>, p: Request -> bool): set<string> {
    if log == [] then {}
    else Paths(log[..|log| - 1], p) + (if p(log[|log| - 1]) then {log[|log| - 1].path} else {})
  }

  function WithStatus(from: int, ip: string, g: (string, int) -> bool): Request -> bool {
    (r: Request) => r.ip == Some(ip) && r.ts >= from && g(r.path, r.status)
  }

  const ANY: (string, int) -> bool := (path, status) => true
  const ERROR: (string, int) -> bool := (path, status) => status >= 400
  const NOT_FOUND: (string, int) -> bool := (path, status) => status == 404
  const SIGNATURE: (string, int) -> bool := (path, status) => status >= 400 && IsSignaturePath(path)

  function DirectFeatures(log: seq<Request>, from: int, ip: string): IpFeatures {
    IpFeatures(ip,
               Count(log, WithStatus(from, ip, ANY)),
               |Paths(log, WithStatus(from, ip, ANY))|,
               |Paths(log, WithStatus(from, ip, NOT_FOUND))|,
               Count(log, WithStatus(from, ip, ERROR)),
               Count(log, WithStatus(from, ip, SIGNATURE)))
  }

  /** A request of the address at or after `from`. */
  predicate InWindow(x: Request, from: int, ip: string) { x.ip == Some(ip) && x.ts >= from }

  /** The places of such requests in the log, of those among them that failed, and of those that failed on a
      signature path. */
  function Requests(log: seq<Request>, from: int, ip: string): set<nat> {
    set i: nat | i < |log| && InWindow(log[i], from, ip)
  }

  function Failures(log: seq<Request>, from: int, ip: string): set<nat> {
    set i: nat | i < |log| && InWindow(log[i], from, ip) && log[i].status >= 400
  }

  function Probes(log: seq<Request>, from: int, ip: string): set<nat> {
    set i: nat | i < |log| && InWindow(log[i], from, ip) && log[i].status >= 400 && IsSignaturePath(log[i].path)
  }

  /** The paths asked for, and those of them that were not found. */
  function PathsAsked(log: seq<Request>, from: int, ip: string): set<string> {
    set x | x in log && InWindow(x, from, ip) :: x.path
  }

  function PathsMissing(log: seq<Request>, from: int, ip: string): set<string> {
    set x | x in log && InWindow(x, from, ip) && x.status == 404 :: x.path
  }

  /** The places of the entries that satisfy `p`. */
  function Places(log: seq<Request>, p: Request -> bool): set<nat> { set i: nat | i < |log| && p(log[i]) }

  lemma PlacesGrow(log: seq<Request>, p: Request -> bool)
    requires log != []
    ensures var n: nat := |log| - 1;
            n !in Places(log[..n], p) && Places(log, p) == Places(log[..n], p) + if p(log[n]) then {n} else {}
  {
  }

  lemma {:induction false} CountIsSize(log: seq<Request>, p: Request -> bool)
    ensures Count(log, p) == |Places(log, p)|
  {
    hide Places;
    if log == [] {
      NoPlaces(p);
    } else {
      CountIsSize(log[..|log| - 1], p);
      PlacesGrow(log, p);
    }
  }

  lemma NoPlaces(p: Request -> bool)
    ensures Places([], p) == {}
  {
  }

  lemma {:induction false} PathsAre(log: seq<Request>, p: Request -> bool)
    ensures Paths(log, p) == set x | x in log && p(x) :: x.path
  {
    if log != [] {
      PathsAre(log[..|log| - 1], p);
      assert log == log[..|log| - 1] + [log[|log| - 1]];
    }
  }

  /** The five features of an address are the sizes of those sets. */
  lemma FeaturesMean(log: seq<Request>, from: int, ip: string)
    ensures DirectFeatures(log, from, ip) ==
            IpFeatures(ip, |Requests(log, from, ip)|, |PathsAsked(log, from, ip)|, |PathsMissing(log, from, ip)|,
                       |Failures(log, from, ip)|, |Probes(log, from, ip)|)
  {
    hide IsSignaturePath, Count, Paths;
    var any, error := WithStatus(from, ip, ANY), WithStatus(from, ip, ERROR);
    var notFound, signature := WithStatus(from, ip, NOT_FOUND), WithStatus(from, ip, SIGNATURE);
    CountIsSize(log, any);
    CountIsSize(log, error);
    CountIsSize(log, signature);
    PathsAre(log, any);
    PathsAre(log, notFound);
    assert Requests(log, from, ip) == Places(log, any);
    assert Failures(log, from, ip) == Places(log, error);
    assert Probes(log, from, ip) == Places(log, signature);
    assert PathsAsked(log, from, ip) == set x | x in log && any(x) :: x.path;
    assert PathsMissing(log, from, ip) == set x | x in log && notFound(x) :: x.path;
  }

  // ---- What the grouping query returns ----

  predicate Matches(r: AggRow, x: Request, from: int) {
    x.ip == Some(r.ip) && x.path == r.path && x.status == r.status && x.ts >= from
  }

  function Matching(r: AggRow, from: int): Request -> bool {
    (x: Request) => Matches(r, x, from)
  }

  predicate Covered(rows: seq<AggRow>, x: Request, from: int) {
    exists i :: 0 <= i < |rows| && Matches(rows[i], x, from)
  }

  predicate SameGroup(r: AggRow, r': AggRow) {
    r.ip == r'.ip && r.path == r'.path && r.status == r'.status
  }

  /** Rows of distinct groups, each with its group's count. */
  ghost predicate AreGroups(rows: seq<AggRow>, log: seq<Request>, from: int) {
    && (forall i, j :: 0 <= i < j < |rows| ==> !SameGroup(rows[i], rows[j]))
    && (forall i :: 0 <= i < |rows| ==> rows[i].count == Count(log, Matching(rows[i], from)) > 0)
  }

  /** One row per (ip, path, status) group of the windowed log, counting it; in any order. */
  ghost predicate IsAggregate(rows: seq<AggRow>, log: seq<Request>, from: int) {
    AreGroups(rows, log, from) &&
    forall x :: x in log && x.ip.Some? && x.ts >= from ==> Covered(rows, x, from)
  }

  // ---- Counting lemmas ----

  lemma {:induction false} CountSplit(log: seq<Request>, p: Request -> bool, q: Request -> bool, r: Request -> bool)
    requires forall x :: x in log ==> p(x) == (q(x) || r(x)) && !(q(x) && r(x))
    ensures Count(log, p) == Count(log, q) + Count(log, r)
    ensures Paths(log, p) == Paths(log, q) + Paths(log, r)
  {
    if log != [] {
      CountSplit(log[..|log| - 1], p, q, r);
    }
  }

  lemma {:induction false} CountNone(log: seq<Request>, p: Request -> bool)
    requires forall x :: x in log ==> !p(x)
    ensures Count(log, p) == 0 && Paths(log, p) == {}
  {
    if log != [] {
      CountNone(log[..|log| - 1], p);
    }
  }

  lemma {:induction false} CountSame(log: seq<Request>, p: Request -> bool, q: Request -> bool)
    requires forall x :: x in log ==> p(x) == q(x)
    ensures Count(log, p) == Count(log, q) && Paths(log, p) == Paths(log, q)
  {
    if log != [] {
      CountSame(log[..|log| - 1], p, q);
    }
  }

  lemma {:induction false} OnePath(log: seq<Request>, p: Request -> bool, path: string)
    requires forall x :: x in log && p(x) ==> x.path == path
    ensures Paths(log, p) == if Count(log, p) > 0 then {path} else {}
  {
    if log != [] {
      OnePath(log[..|log| - 1], p, path);
    }
  }

  /** Every log has such rows. */
  lemma {:induction false} AggregateExists(log: seq<Request>, from: int) returns (rows: seq<AggRow>)
    ensures IsAggregate(rows, log, from)
  {
    if log == [] {
      return [];
    }
    var before, x := log[..|log| - 1], log[|log| - 1];
    rows := AggregateExists(before, from);
    if x.ip.None? || x.ts < from {
      NotCounted(rows, log, from);
    } else if k: nat :| k < |rows| && Matches(rows[k], x, from) {
      rows := GroupGrows(rows, log, from, k);
    } else {
      rows := GroupStarts(rows, log, from);
    }
  }

  lemma NotCounted(rows: seq<AggRow>, log: seq<Request>, from: int)
    requires log != [] && IsAggregate(rows, log[..|log| - 1], from)
    requires log[|log| - 1].ip.None? || log[|log| - 1].ts < from
    ensures IsAggregate(rows, log, from)
  {
    assert log == log[..|log| - 1] + [log[|log| - 1]];
  }

  /** The new request joins group `k`, and no other group matches it. */
  lemma GroupGrows(rows: seq<AggRow>, log: seq<Request>, from: int, k: nat) returns (grown: seq<AggRow>)
    requires log != [] && IsAggregate(rows, log[..|log| - 1], from)
    requires k < |rows| && Matches(rows[k], log[|log| - 1], from)
    ensures IsAggregate(grown, log, from)
  {
    var x := log[|log| - 1];
    grown := rows[k := rows[k].(count := rows[k].count + 1)];
    CountSame(log, Matching(grown[k], from), Matching(rows[k], from));
    assert forall i :: 0 <= i < |rows| ==> SameGroup(grown[i], rows[i]);
    forall i | 0 <= i < |rows| && i != k
      ensures grown[i].count == Count(log, Matching(grown[i], from))
    {
      assert !SameGroup(rows[if i < k then i else k], rows[if i < k then k else i]);
      assert !Matching(rows[i], from)(x);
    }
    forall y | y in log && y.ip.Some? && y.ts >= from
      ensures Covered(grown, y, from)
    {
      if y in log[..|log| - 1] {
        var i :| 0 <= i < |rows| && Matches(rows[i], y, from);
        assert Matches(grown[i], y, from);
      } else {
        assert y == x && Matches(grown[k], y, from);
      }
    }
  }

  /** The new request starts a group of its own. */
  lemma GroupStarts(rows: seq<AggRow>, log: seq<Request>, from: int) returns (more: seq<AggRow>)
    requires log != [] && IsAggregate(rows, log[..|log| - 1], from)
    requires log[|log| - 1].ip.Some? && log[|log| - 1].ts >= from
    requires forall k :: 0 <= k < |rows| ==> !Matches(rows[k], log[|log| - 1], from)
    ensures IsAggregate(more, log, from)
  {
    var before, x := log[..|log| - 1], log[|log| - 1];
    var group := AggRow(x.ip.value, x.path, x.status, 1);
    more := rows + [group];
    forall y | y in before
      ensures !Matching(group, from)(y)
    {
      assert Covered(rows, y, from) || y.ip.None? || y.ts < from;
    }
    CountNone(before, Matching(group, from));
    forall i | 0 <= i < |rows|
      ensures more[i].count == Count(log, Matching(more[i], from)) && !SameGroup(rows[i], group)
    {
      assert !Matching(rows[i], from)(x);
    }
    forall y | y in log && y.ip.Some? && y.ts >= from
      ensures Covered(more, y, from)
    {
      if y in before {
        var i :| 0 <= i < |rows| && Matches(rows[i], y, from);
        assert Matches(more[i], y, from);
      } else {
        assert y == x && Matches(more[|rows|], y, from);
      }
    }
  }

  /** What one group adds to the requests of an IP that pass `g`. */
  function Part(rows: seq<AggRow>, from: int, ip: string, g: (string, int) -> bool): Request -> bool {
    (x: Request) => x.ip == Some(ip) && Covered(rows, x, from) && g(x.path, x.status)
  }

  lemma CoveredStep(rows: seq<AggRow>, x: Request, from: int)
    requires rows != []
    ensures Covered(rows, x, from) <==> Covered(rows[..|rows| - 1], x, from) || Matches(rows[|rows| - 1], x, from)
  {
    var n := |rows| - 1;
    if Covered(rows[..n], x, from) {
      var i :| 0 <= i < n && Matches(rows[..n][i], x, from);
      assert Matches(rows[i], x, from);
    }
    if Covered(rows, x, from) {
      var i :| 0 <= i < |rows| && Matches(rows[i], x, from);
      assert i < n ==> Matches(rows[..n][i], x, from);
    }
  }

  /** One more group: its whole count joins the IP's requests, or nothing does. */
  lemma PartStep(rows: seq<AggRow>, log: seq<Request>, from: int, ip: string, g: (string, int) -> bool)
    requires rows != [] && AreGroups(rows, log, from)
    ensures var r := rows[|rows| - 1];
            var (before, after) := (Part(rows[..|rows| - 1], from, ip, g), Part(rows, from, ip, g));
            if r.ip == ip && g(r.path, r.status)
            then Count(log, after) == Count(log, before) + r.count && Paths(log, after) == Paths(log, before) + {r.path}
            else Count(log, after) == Count(log, before) && Paths(log, after) == Paths(log, before)
  {
    var n := |rows| - 1;
    var r := rows[n];
    var before, after := Part(rows[..n], from, ip, g), Part(rows, from, ip, g);
    forall x
      ensures after(x) == (before(x) || (x.ip == Some(ip) && Matches(r, x, from) && g(x.path, x.status)))
      ensures !(before(x) && Matches(r, x, from))
    {
      CoveredStep(rows, x, from);
      assert forall i :: 0 <= i < n ==> !SameGroup(rows[i], rows[n]);
    }
    if r.ip == ip && g(r.path, r.status) {
      CountSplit(log, after, before, Matching(r, from));
      OnePath(log, Matching(r, from), r.path);
    } else {
      CountSame(log, after, before);
    }
  }

  /** The accumulator of an IP counts its covered requests. */
  lemma {:induction false} AccCountsParts(rows: seq<AggRow>, log: seq<Request>, from: int, ip: string)
    requires AreGroups(rows, log, from)
    ensures AccOf(rows, ip) == Acc(Count(log, Part(rows, from, ip, ANY)), Count(log, Part(rows, from, ip, ERROR)),
                                   Count(log, Part(rows, from, ip, SIGNATURE)), Paths(log, Part(rows, from, ip, ANY)),
                                   Paths(log, Part(rows, from, ip, NOT_FOUND)))
  {
    hide IsSignaturePath, Part;
    if rows == [] {
      NoParts(log, from, ip, ANY);
      NoParts(log, from, ip, ERROR);
      NoParts(log, from, ip, SIGNATURE);
      NoParts(log, from, ip, NOT_FOUND);
    } else {
      AccCountsParts(rows[..|rows| - 1], log, from, ip);
      PartStep(rows, log, from, ip, ANY);
      PartStep(rows, log, from, ip, ERROR);
      PartStep(rows, log, from, ip, SIGNATURE);
      PartStep(rows, log, from, ip, NOT_FOUND);
    }
  }

  lemma NoParts(log: seq<Request>, from: int, ip: string, g: (string, int) -> bool)
    ensures Count(log, Part([], from, ip, g)) == 0 && Paths(log, Part([], from, ip, g)) == {}
  {
    forall x
      ensures !Covered([], x, from)
    {
    }
    CountNone(log, Part([], from, ip, g));
  }

  lemma PartsAreAll(rows: seq<AggRow>, log: seq<Request>, from: int, ip: string, g: (string, int) -> bool)
    requires IsAggregate(rows, log, from)
    ensures Count(log, Part(rows, from, ip, g)) == Count(log, WithStatus(from, ip, g))
    ensures Paths(log, Part(rows, from, ip, g)) == Paths(log, WithStatus(from, ip, g))
  {
    forall x | x in log && x.ip.Some?
      ensures Covered(rows, x, from) <==> x.ts >= from
    {
    }
    CountSame(log, Part(rows, from, ip, g), WithStatus(from, ip, g));
  }

  /** Features from the grouped rows, in whatever order they came, are the features of the raw log. */
  lemma GroupedIsDirect(rows: seq<AggRow>, log: seq<Request>, from: int, ip: string)
    requires IsAggregate(rows, log, from)
    ensures Finish(ip, AccOf(rows, ip)) == DirectFeatures(log, from, ip)
  {
    hide IsSignaturePath, Part, WithStatus, AccOf;
    AccCountsParts(rows, log, from, ip);
    PartsAreAll(rows, log, from, ip, ANY);
    PartsAreAll(rows, log, from, ip, ERROR);
    PartsAreAll(rows, log, from, ip, SIGNATURE);
    PartsAreAll(rows, log, from, ip, NOT_FOUND);
  }

  /** An IP has a row exactly when the window holds a request from it. */
  lemma {:induction false} HasRowIffLogged(rows: seq<AggRow>, log: seq<Request>, from: int, ip: string)
    requires IsAggregate(rows, log, from)
    ensures HasRow(rows, ip) <==> exists x :: x in log && x.ip == Some(ip) && x.ts >= from
  {
    if HasRow(rows, ip) {
      var i :| 0 <= i < |rows| && rows[i].ip == ip;
      if forall x :: x in log ==> !Matching(rows[i], from)(x) {
        CountNone(log, Matching(rows[i], from));
        assert false;
      }
    }
    if x :| x in log && x.ip == Some(ip) && x.ts >= from {
      assert Covered(rows, x, from);
    }
  }

  /** The features BuildFeatures returns on a grouped log: one entry per evaluated IP the window
      saw, each equal to the direct reading of the log. */
  lemma FeaturesOfLog(parse: Parser, rows: seq<AggRow>, fs: seq<IpFeatures>, log: seq<Request>, from: int)
    requires IsAggregate(rows, log, from) && AreFeaturesOf(parse, rows, fs)
    ensures forall i :: 0 <= i < |fs| ==> fs[i] == DirectFeatures(log, from, fs[i].ip)
    ensures forall ip :: Lists(fs, ip) <==>
                         ShouldEvaluate(parse, ip) && exists x :: x in log && x.ip == Some(ip) && x.ts >= from
  {
    hide DirectFeatures, ShouldEvaluate;
    forall i | 0 <= i < |fs|
      ensures fs[i] == DirectFeatures(log, from, fs[i].ip)
    {
      GroupedIsDirect(rows, log, from, fs[i].ip);
    }
    forall ip
      ensures HasRow(rows, ip) <==> exists x :: x in log && x.ip == Some(ip) && x.ts >= from
    {
      HasRowIffLogged(rows, log, from, ip);
    }
  }

  // ---- Order among the counts ----

  lemma {:induction false} CountMonotone(log: seq<Request>, p: Request -> bool, q: Request -> bool)
    requires forall x :: x in log && p(x) ==> q(x)
    ensures Count(log, p) <= Count(log, q) && Paths(log, p) <= Paths(log, q)
  {
    if log != [] {
      CountMonotone(log[..|log| - 1], p, q);
    }
  }

  lemma {:induction false} PathsAtMostCount(log: seq<Request>, p: Request -> bool)
    ensures |Paths(log, p)| <= Count(log, p)
  {
    if log != [] {
      var before := Paths(log[..|log| - 1], p);
      var path := log[|log| - 1].path;
      PathsAtMostCount(log[..|log| - 1], p);
      assert |before + {path}| <= |before| + 1 by {
        assert before + {path} == before + ({path} - before);
      }
    }
  }

  lemma FeaturesOrdered(log: seq<Request>, from: int, ip: string)
    ensures var f := DirectFeatures(log, from, ip);
            f.signatureHits <= f.errors <= f.total && f.distinct404 <= f.errors && f.distinct404 <= f.distinctPaths
  {
    hide IsSignaturePath;
    var any, error := WithStatus(from, ip, ANY), WithStatus(from, ip, ERROR);
    var notFound, signature := WithStatus(from, ip, NOT_FOUND), WithStatus(from, ip, SIGNATURE);
    CountMonotone(log, signature, error);
    CountMonotone(log, error, any);
    CountMonotone(log, notFound, error);
    CountMonotone(log, notFound, any);
    PathsAtMostCount(log, notFound);
    SubsetSize(Paths(log, notFound), Paths(log, any));
  }

  lemma {:induction false} CountConcat(a: seq<Request>, b: seq<Request>, p: Request -> bool)
    ensures Count(a + b, p) == Count(a, p) + Count(b, p)
    ensures Paths(a + b, p) == Paths(a, p) + Paths(b, p)
  {
    if b == [] {
      assert a + b == a;
    } else {
      var n := |b| - 1;
      CountConcat(a, b[..n], p);
      assert (a + b)[..|a + b| - 1] == a + b[..n];
    }
  }

  // ---- The rules ----

  const R1_SIGNATURE_MIN := 2
  const R2_DISTINCT_404_MIN := 40
  const R3_FLOOD_MIN := 1000

  datatype Rule = SignatureProbe | Distinct404Burst | Flood {
    predicate ExemptsVerifiedCrawlers() { !SignatureProbe? }

    function Label(): string {
      match this
      case SignatureProbe => "R1: signature probe"
      case Distinct404Burst => "R2: 404 burst"
      case Flood => "R3: flood"
    }
  }

  /** First matching rule, most confident first. */
  function Score(f: IpFeatures): Option<Rule> {
    if f.signatureHits >= R1_SIGNATURE_MIN then Some(SignatureProbe)
    else if f.distinct404 >= R2_DISTINCT_404_MIN then Some(Distinct404Burst)
    else if f.total >= R3_FLOOD_MIN then Some(Flood)
    else None
  }

  function Confidence(v: Option<Rule>): nat {
    match v
    case None => 0
    case Some(Flood) => 1
    case Some(Distinct404Burst) => 2
    case Some(SignatureProbe) => 3
  }

  lemma CountGrows(before: seq<Request>, added: seq<Request>, after: seq<Request>, p: Request -> bool)
    ensures Count(before + after, p) <= Count(before + added + after, p)
    ensures |Paths(before + after, p)| <= |Paths(before + added + after, p)|
  {
    CountConcat(before, after, p);
    CountConcat(before, added, p);
    CountConcat(before + added, after, p);
    SubsetSize(Paths(before + after, p), Paths(before + added + after, p));
  }

  /** Requests logged anywhere among the others never lower a verdict. */
  lemma MoreRequestsNeverLower(before: seq<Request>, added: seq<Request>, after: seq<Request>, from: int, ip: string)
    ensures Confidence(Score(DirectFeatures(before + after, from, ip))) <=
            Confidence(Score(DirectFeatures(before + added + after, from, ip)))
  {
    hide IsSignaturePath, WithStatus, Count, Paths;
    CountGrows(before, added, after, WithStatus(from, ip, ANY));
    CountGrows(before, added, after, WithStatus(from, ip, NOT_FOUND));
    CountGrows(before, added, after, WithStatus(from, ip, SIGNATURE));
  }
}
