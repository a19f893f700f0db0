/** The request log's stored bot flag: the user-agent classifier, the bulk reclassification, and the
    audience counts that rest on it. */
module RequestLog {
  import opened Wrappers
  import opened Text

  // ---- is_bot ----

  const MARKERS: seq<string> := [
    "bot", "crawl", "spider", "slurp", "curl", "wget", "python", "go-http", "java/",
    "okhttp", "httpx", "axios", "node-fetch", "headless", "phantomjs", "scrapy",
    "masscan", "zgrab", "nmap", "semrush", "ahrefs", "mj12", "dotbot",
    "facebookexternalhit", "feedfetcher"
  ]

  predicate IsMarker(m: string) { m in MARKERS }

  predicate IsBot(userAgent: Option<string>) {
    userAgent.None? || userAgent.value == "" || exists m :: m in MARKERS && Contains(AsciiLower(userAgent.value), m)
  }

  /** A request without an agent, or with an empty one, is a bot's. A named agent is a bot exactly when some piece of
      it is a marker, letter case aside. */
  lemma IsBotIff(ua: string)
    ensures IsBot(None) && IsBot(Some(""))
    ensures ua != "" ==>
              (IsBot(Some(ua)) <==>
               exists pre, piece, post :: IsPiece(ua, pre, piece, post) && IsMarker(AsciiLower(piece)))
  {
    NoAgentIsBot();
    if ua != "" {
      NamedBotIff(ua);
    }
  }

  lemma NoAgentIsBot()
    ensures IsBot(None) && IsBot(Some(""))
  {
  }

  lemma NamedBotIff(ua: string)
    requires ua != ""
    ensures IsBot(Some(ua)) <==> exists pre, piece, post :: IsPiece(ua, pre, piece, post) && IsMarker(AsciiLower(piece))
  {
    hide IsMarker, IsBot, Contains, AsciiLower, IsPiece;
    BotHasMarker(ua);
    if m :| IsMarker(m) && Contains(AsciiLower(ua), m) {
      var pre, piece, post := PieceAt(ua, m);
      assert IsPiece(ua, pre, piece, post) && IsMarker(AsciiLower(piece));
    }
    if pre, piece, post :| IsPiece(ua, pre, piece, post) && IsMarker(AsciiLower(piece)) {
      PieceOccurs(ua, pre, piece, post);
    }
  }

  lemma BotHasMarker(ua: string)
    requires ua != ""
    ensures IsBot(Some(ua)) <==> exists m :: IsMarker(m) && Contains(AsciiLower(ua), m)
  {
    hide Contains, AsciiLower;
    assert forall m :: IsMarker(m) <==> m in MARKERS;
  }

  // ---- The table ----

  datatype Row = Row(id: nat, time: int, userAgent: Option<string>, isBot: Option<bool>, challenged: bool)

  predicate Targeted(r: Row, onlyMissing: bool) { onlyMissing ==> r.isBot.None? }

  function Restamped(r: Row, onlyMissing: bool): Row {
    if Targeted(r, onlyMissing) then r.(isBot := Some(IsBot(r.userAgent))) else r
  }

  /** Targeted rows whose agent is in `agents`. */
  function CountIn(rows: seq<Row>, onlyMissing: bool, agents: set<Option<string>>): (n: nat) {
    if rows == [] then 0
    else (if Targeted(rows[0], onlyMissing) && rows[0].userAgent in agents then 1 else 0) +
         CountIn(rows[1..], onlyMissing, agents)
  }

  lemma {:induction false} CountSplits(rows: seq<Row>, onlyMissing: bool, done: set<Option<string>>, ua: Option<string>)
    requires ua !in done
    ensures CountIn(rows, onlyMissing, done + {ua}) ==
            CountIn(rows, onlyMissing, done) + CountIn(rows, onlyMissing, {ua})
  {
    if rows != [] {
      CountSplits(rows[1..], onlyMissing, done, ua);
    }
  }

  /** The count only looks at the rows it counts. */
  lemma {:induction false} CountFrame(a: seq<Row>, b: seq<Row>, onlyMissing: bool, agents: set<Option<string>>)
    requires |a| == |b|
    requires forall i :: 0 <= i < |a| ==> a[i].userAgent == b[i].userAgent
    requires forall i :: 0 <= i < |a| && a[i].userAgent in agents ==> a[i] == b[i]
    ensures CountIn(a, onlyMissing, agents) == CountIn(b, onlyMissing, agents)
  {
    if a != [] {
      CountFrame(a[1..], b[1..], onlyMissing, agents);
    }
  }

  function AgentsOf(rows: seq<Row>, onlyMissing: bool): set<Option<string>> {
    set r | r in rows && Targeted(r, onlyMissing) :: r.userAgent
  }

  function CountTargeted(rows: seq<Row>, onlyMissing: bool): nat {
    if rows == [] then 0
    else (if Targeted(rows[0], onlyMissing) then 1 else 0) + CountTargeted(rows[1..], onlyMissing)
  }

  lemma {:induction false} CountAll(rows: seq<Row>, onlyMissing: bool, agents: set<Option<string>>)
    requires forall r :: r in rows && Targeted(r, onlyMissing) ==> r.userAgent in agents
    ensures CountIn(rows, onlyMissing, agents) == CountTargeted(rows, onlyMissing)
  {
    if rows != [] {
      CountAll(rows[1..], onlyMissing, agents);
    }
  }

  lemma {:induction false} CountNone(rows: seq<Row>, onlyMissing: bool)
    ensures CountIn(rows, onlyMissing, {}) == 0
  {
    if rows != [] {
      CountNone(rows[1..], onlyMissing);
    }
  }

  /** The rows after the bulk updates for the agents in `done`. */
  ghost predicate DoneFor(before: seq<Row>, rows: seq<Row>, onlyMissing: bool, done: set<Option<string>>) {
    |rows| == |before| &&
    forall i :: 0 <= i < |rows| ==>
      rows[i] == if before[i].userAgent in done then Restamped(before[i], onlyMissing) else before[i]
  }

  class RequestLog {
    var rows: seq<Row>

    constructor (rows: seq<Row>)
      ensures this.rows == rows
    {
      this.rows := rows;
    }

    /** `UPDATE request_log SET is_bot = … WHERE user_agent = … [AND is_bot IS NULL]`. */
    method BulkUpdate(ua: Option<string>, onlyMissing: bool, bot: bool) returns (affected: nat)
      modifies this
      ensures affected == CountIn(old(rows), onlyMissing, {ua})
      ensures |rows| == |old(rows)|
      ensures forall i :: 0 <= i < |rows| ==>
        rows[i] == if old(rows)[i].userAgent == ua && Targeted(old(rows)[i], onlyMissing)
                   then old(rows)[i].(isBot := Some(bot)) else old(rows)[i]
    {
      affected := CountIn(rows, onlyMissing, {ua});
      rows := seq(|rows|, i requires 0 <= i < |rows| reads this =>
        if rows[i].userAgent == ua && Targeted(rows[i], onlyMissing) then rows[i].(isBot := Some(bot)) else rows[i]);
    }

    /** `SELECT DISTINCT user_agent`, in any order. */
    method DistinctAgents(onlyMissing: bool) returns (agents: seq<Option<string>>)
      ensures forall ua :: ua in agents <==> ua in AgentsOf(rows, onlyMissing)
      ensures forall i, j :: 0 <= i < j < |agents| ==> agents[i] != agents[j]
    {
      agents := [];
      var rest := AgentsOf(rows, onlyMissing);
      while rest != {}
        invariant forall ua :: ua in agents || ua in rest <==> ua in AgentsOf(rows, onlyMissing)
        invariant forall ua :: ua in agents ==> ua !in rest
        invariant forall i, j :: 0 <= i < j < |agents| ==> agents[i] != agents[j]
        decreases |rest|
      {
        var ua :| ua in rest;
        rest := rest - {ua};
        agents := agents + [ua];
      }
    }

    /** One bulk update per distinct agent comes to classifying every targeted row on its own, and the count
        returned is the number of targeted rows. */
    method ReclassifyBots(onlyMissing: bool) returns (updated: nat)
      modifies this
      ensures |rows| == |old(rows)| && forall i :: 0 <= i < |rows| ==> rows[i] == Restamped(old(rows)[i], onlyMissing)
      ensures updated == CountTargeted(old(rows), onlyMissing)
    {
      hide IsBot, CountIn, CountTargeted, Targeted;
      ghost var before := rows;
      var agents := DistinctAgents(onlyMissing);
      updated := 0;
      CountNone(before, onlyMissing);
      ghost var done: set<Option<string>> := {};
      for i := 0 to |agents|
        invariant done == set ua | ua in agents[..i]
        invariant DoneFor(before, rows, onlyMissing, done)
        invariant updated == CountIn(before, onlyMissing, done)
      {
        var ua := agents[i];
        assert ua !in agents[..i];
        CountFrame(rows, before, onlyMissing, {ua});
        CountSplits(before, onlyMissing, done, ua);
        var affected := BulkUpdate(ua, onlyMissing, IsBot(ua));
        updated := updated + affected;
        assert agents[..i + 1] == agents[..i] + [ua];
        done := done + {ua};
      }
      assert agents[..|agents|] == agents;
      CountAll(before, onlyMissing, done);
      forall i | 0 <= i < |rows|
        ensures rows[i] == Restamped(before[i], onlyMissing)
      {
        assert before[i] in before;
      }
    }
  }

  // ---- What a reclassification leaves behind ----

  ghost predicate IsReclassified(before: seq<Row>, after: seq<Row>, onlyMissing: bool) {
    |after| == |before| && forall i :: 0 <= i < |after| ==> after[i] == Restamped(before[i], onlyMissing)
  }

  datatype AudienceCounts = AudienceCounts(all: nat, humans: nat, bots: nat)

  function CountAudience(rows: seq<Row>, from: int, to: int): AudienceCounts {
    if rows == [] then AudienceCounts(0, 0, 0)
    else
      var rest := CountAudience(rows[1..], from, to);
      if !(from <= rows[0].time < to) then rest
      else AudienceCounts(rest.all + 1,
                          if rows[0].isBot.Some? && !rows[0].isBot.value then rest.humans + 1 else rest.humans,
                          if rows[0].isBot.Some? && rows[0].isBot.value then rest.bots + 1 else rest.bots)
  }

  /** The places of the rows that satisfy `p`. */
  function Places(rows: seq<Row>, p: Row -> bool): set<nat> { set i: nat | i < |rows| && p(rows[i]) }

  lemma PlacesGrow(rows: seq<Row>, p: Row -> bool)
    requires rows != []
    ensures var n: nat := |rows| - 1;
            |Places(rows, p)| == |Places(rows[..n], p)| + if p(rows[n]) then 1 else 0
  {
    var n: nat := |rows| - 1;
    assert n !in Places(rows[..n], p);
    assert Places(rows, p) == Places(rows[..n], p) + if p(rows[n]) then {n} else {};
  }

  /** A last row adds to the counts what a first one does. */
  lemma {:induction false} AudienceGrows(rows: seq<Row>, from: int, to: int)
    requires rows != []
    ensures var (c, r) := (CountAudience(rows[..|rows| - 1], from, to), rows[|rows| - 1]);
            var here := from <= r.time < to;
            CountAudience(rows, from, to) ==
            AudienceCounts(c.all + (if here then 1 else 0),
                           c.humans + (if here && r.isBot == Some(false) then 1 else 0),
                           c.bots + (if here && r.isBot == Some(true) then 1 else 0))
  {
    if |rows| > 1 {
      AudienceGrows(rows[1..], from, to);
      assert rows[1..][..|rows| - 2] == rows[..|rows| - 1][1..];
    }
  }

  /** The counts are the window's rows, those flagged as no bot, and those flagged as a bot; a row at `to` is out. */
  lemma {:induction false} AudienceMeans(rows: seq<Row>, from: int, to: int)
    ensures var c := CountAudience(rows, from, to);
            c.all == |Places(rows, (r: Row) => from <= r.time && r.time < to)| &&
            c.humans == |Places(rows, (r: Row) => from <= r.time && r.time < to && r.isBot == Some(false))| &&
            c.bots == |Places(rows, (r: Row) => from <= r.time && r.time < to && r.isBot == Some(true))|
  {
    hide Places;
    var all := (r: Row) => from <= r.time && r.time < to;
    var humans := (r: Row) => from <= r.time && r.time < to && r.isBot == Some(false);
    var bots := (r: Row) => from <= r.time && r.time < to && r.isBot == Some(true);
    if rows == [] {
      NoPlaces(all);
      NoPlaces(humans);
      NoPlaces(bots);
    } else {
      AudienceMeans(rows[..|rows| - 1], from, to);
      AudienceGrows(rows, from, to);
      PlacesGrow(rows, all);
      PlacesGrow(rows, humans);
      PlacesGrow(rows, bots);
    }
  }

  lemma NoPlaces(p: Row -> bool)
    ensures Places([], p) == {}
  {
  }

  ghost predicate AllClassified(rows: seq<Row>, from: int, to: int) {
    forall r :: r in rows && from <= r.time < to ==> r.isBot.Some?
  }

  /** Humans and bots make up the whole window exactly when no row of it is still unclassified. */
  lemma {:induction false} AudienceSplits(rows: seq<Row>, from: int, to: int)
    ensures var c := CountAudience(rows, from, to);
            c.humans + c.bots <= c.all && (c.humans + c.bots == c.all <==> AllClassified(rows, from, to))
  {
    if rows != [] {
      AudienceSplits(rows[1..], from, to);
      assert rows == [rows[0]] + rows[1..];
      assert AllClassified(rows, from, to) <==>
             (from <= rows[0].time < to ==> rows[0].isBot.Some?) && AllClassified(rows[1..], from, to) by {
        assert forall r :: r in rows <==> r == rows[0] || r in rows[1..];
      }
    }
  }

  lemma {:induction false} NothingTargeted(rows: seq<Row>)
    ensures CountTargeted(rows, true) == 0 <==> forall r :: r in rows ==> r.isBot.Some?
  {
    if rows != [] {
      NothingTargeted(rows[1..]);
      assert rows == [rows[0]] + rows[1..];
      assert rows[0] in rows;
    }
  }

  /** After a backfill or a recompute: every window splits into humans and bots, a further backfill would
      update nothing, and a further run of the same kind leaves every row as it is. */
  lemma AfterReclassify(before: seq<Row>, after: seq<Row>, onlyMissing: bool, from: int, to: int)
    requires IsReclassified(before, after, onlyMissing)
    ensures var c := CountAudience(after, from, to); c.humans + c.bots == c.all
    ensures CountTargeted(after, true) == 0
    ensures IsReclassified(after, after, onlyMissing)
  {
    hide IsBot;
    forall r | r in after
      ensures r.isBot.Some?
    {
      var i :| 0 <= i < |after| && after[i] == r;
    }
    AudienceSplits(after, from, to);
    NothingTargeted(after);
  }

  /** The write path flags every challenged request as a bot. A recompute keeps that exactly when every
      challenged row's own agent says so; a backfill always keeps it. */
  lemma ChallengedStaysBotIff(before: seq<Row>, after: seq<Row>, onlyMissing: bool)
    requires IsReclassified(before, after, onlyMissing)
    requires forall r :: r in before && r.challenged ==> r.isBot == Some(true)
    ensures (forall r :: r in after && r.challenged ==> r.isBot == Some(true)) <==>
            (onlyMissing || forall r :: r in before && r.challenged ==> IsBot(r.userAgent))
  {
    hide IsBot;
    forall i | 0 <= i < |before|
      ensures before[i] in before && after[i] in after
    {
    }
    if (forall r :: r in after && r.challenged ==> r.isBot == Some(true)) && !onlyMissing {
      forall r | r in before && r.challenged
        ensures IsBot(r.userAgent)
      {
        var i :| 0 <= i < |before| && before[i] == r;
        assert after[i].challenged && after[i] in after;
      }
    }
  }

  /** Such a recompute: a challenged request whose agent names no bot is counted as human again. */
  lemma RecomputeForgetsToll()
    ensures var before := [Row(1, 0, Some("x"), Some(true), true)];
            var after := [Row(1, 0, Some("x"), Some(false), true)];
            IsReclassified(before, after, false)
  {
    assert !IsBot(Some("x")) by {
      NoMarkerFits();
    }
  }

  lemma NoMarkerFits()
    ensures forall m :: m in MARKERS ==> !Contains(AsciiLower("x"), m)
  {
    assert forall m :: m in MARKERS ==> |m| >= 3;
  }
}
