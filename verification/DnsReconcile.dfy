/** Reconciling the zone's address records with the public addresses: create what is missing, then delete
    one record for each address no longer wanted. */
module DnsReconcile {
  import opened Wrappers

  datatype Ip = V4(text: string) | V6(text: string)

  datatype RecId = RecId(number: nat)

  /** The zone: each record's content, if it reads as an address. A V4 or unreadable content is an A record's;
      a V6 one is an AAAA record's. */
  type Records = map<RecId, Option<Ip>>

  function IdsOf(z: Records, ip: Ip): set<RecId> {
    set id | id in z && z[id] == Some(ip)
  }

  function Count(z: Records, ip: Ip): nat { |IdsOf(z, ip)| }

  predicate ListedAsA(content: Option<Ip>) { content.None? || content.value.V4? }

  /** Some A record does not read as an address. */
  ghost predicate Unreadable(z: Records) {
    exists id :: id in z && z[id].None?
  }

  lemma CountAfterCreate(z: Records, id: RecId, ip: Ip, other: Ip)
    requires id !in z
    ensures Count(z[id := Some(ip)], other) == Count(z, other) + if other == ip then 1 else 0
  {
    var z' := z[id := Some(ip)];
    assert IdsOf(z', other) == IdsOf(z, other) + if other == ip then {id} else {};
  }

  lemma CountAfterDelete(z: Records, id: RecId, ip: Ip, other: Ip)
    requires id in z && z[id] == Some(ip)
    ensures Count(z - {id}, other) == Count(z, other) - if other == ip then 1 else 0
  {
    assert IdsOf(z - {id}, other) == IdsOf(z, other) - if other == ip then {id} else {};
    assert id in IdsOf(z, ip);
  }

  lemma CountPositive(z: Records, ip: Ip)
    ensures Count(z, ip) > 0 <==> exists id :: id in z && z[id] == Some(ip)
  {
    if id :| id in z && z[id] == Some(ip) {
      assert id in IdsOf(z, ip);
    }
    if Count(z, ip) > 0 {
      var id :| id in IdsOf(z, ip);
    }
  }

  /** What one completed pass does to the number of records for an address. AAAA records are never listed, so
      a wanted V6 address is always created and an unwanted one never deleted. */
  function CountAfterPass(count: nat, ip: Ip, wanted: bool): nat {
    if ip.V6? then (if wanted then count + 1 else count)
    else if wanted then (if count == 0 then 1 else count)
    else if count == 0 then 0
    else count - 1
  }

  /** What holds however early a pass was cut short: no wanted address loses a record, only records of unwanted
      V4 addresses go, and none goes before every wanted address is present. */
  ghost predicate Safe(before: Records, after: Records, addrs: set<Ip>) {
    && (forall ip :: ip in addrs ==> Count(after, ip) >= Count(before, ip))
    && (forall id :: id in before && id in after ==> after[id] == before[id])
    && (forall id :: id in before && id !in after ==>
          before[id].Some? && before[id].value.V4? && before[id].value !in addrs &&
          forall ip :: ip in addrs ==> Count(after, ip) > 0)
  }

  class Zone {
    var recs: Records
    var nextId: nat

    ghost predicate Valid() reads this {
      forall id :: id in recs ==> id.number < nextId
    }

    /** `get_recs_by_name(…, "A")`, in whatever order the service lists them. */
    method ListA() returns (listing: seq<RecId>)
      ensures forall id :: id in listing <==> id in recs && ListedAsA(recs[id])
    {
      listing := [];
      var rest := set id | id in recs && ListedAsA(recs[id]);
      while rest != {}
        invariant forall id :: id in listing || id in rest <==> id in recs && ListedAsA(recs[id])
        decreases |rest|
      {
        var id :| id in rest;
        rest := rest - {id};
        listing := listing + [id];
      }
    }

    method Create(ip: Ip)
      requires Valid()
      modifies this
      ensures Valid() && nextId == old(nextId) + 1
      ensures RecId(old(nextId)) !in old(recs) && recs == old(recs)[RecId(old(nextId)) := Some(ip)]
    {
      recs := recs[RecId(nextId) := Some(ip)];
      nextId := nextId + 1;
    }

    method Delete(id: RecId)
      requires Valid()
      modifies this`recs
      ensures Valid() && recs == old(recs) - {id}
    {
      recs := recs - {id};
    }
  }

  /** The map built from a listing: for each address, one record that holds it. */
  ghost predicate IdPerIp(z: Records, ids: seq<RecId>, byIp: map<Ip, RecId>) {
    && (forall ip :: ip in byIp <==> exists id :: id in ids && id in z && z[id] == Some(ip))
    && (forall ip :: ip in byIp ==> byIp[ip] in z && z[byIp[ip]] == Some(ip))
  }

  /** Fill the map; the last record listed for an address wins. An unreadable content ends the pass. */
  method IndexByIp(zone: Zone, listing: seq<RecId>) returns (ok: bool, byIp: map<Ip, RecId>)
    requires forall id :: id in listing ==> id in zone.recs
    ensures ok <==> forall id :: id in listing ==> zone.recs[id].Some?
    ensures ok ==> IdPerIp(zone.recs, listing, byIp)
  {
    byIp := map[];
    for i := 0 to |listing|
      invariant IdPerIp(zone.recs, listing[..i], byIp)
      invariant forall id :: id in listing[..i] ==> zone.recs[id].Some?
    {
      var id := listing[i];
      assert id in listing;
      if zone.recs[id].None? {
        return false, byIp;
      }
      assert listing[..i + 1] == listing[..i] + [id];
      byIp := byIp[zone.recs[id].value := id];
    }
    assert listing[..|listing|] == listing;
    ok := true;
  }

  /** Create a record for each of `missing`; `budget` is how many calls go through before one fails. */
  method CreateAll(zone: Zone, missing: set<Ip>, budget: nat) returns (ok: bool, left: nat)
    requires zone.Valid()
    modifies zone
    ensures zone.Valid()
    ensures forall id :: id in old(zone.recs) ==> id in zone.recs && zone.recs[id] == old(zone.recs)[id]
    ensures forall id :: id in zone.recs && id !in old(zone.recs) ==> zone.recs[id].Some?
    ensures forall ip :: Count(zone.recs, ip) >= Count(old(zone.recs), ip)
    ensures ok ==> forall ip :: Count(zone.recs, ip) == Count(old(zone.recs), ip) + if ip in missing then 1 else 0
    ensures ok <==> budget >= |missing|
    ensures ok ==> left == budget - |missing|
  {
    hide Count;
    var rest := missing;
    left := budget;
    while rest != {}
      invariant rest <= missing && zone.Valid()
      invariant left == budget - (|missing| - |rest|)
      invariant forall id :: id in old(zone.recs) ==> id in zone.recs && zone.recs[id] == old(zone.recs)[id]
      invariant forall id :: id in zone.recs && id !in old(zone.recs) ==> zone.recs[id].Some?
      invariant forall ip :: Count(zone.recs, ip) == Count(old(zone.recs), ip) + if ip in missing - rest then 1 else 0
      decreases |rest|
    {
      if left == 0 {
        return false, 0;
      }
      var ip :| ip in rest;
      ghost var z := zone.recs;
      ghost var newId := RecId(zone.nextId);
      zone.Create(ip);
      forall other: Ip
        ensures Count(zone.recs, other) == Count(z, other) + if other == ip then 1 else 0
      {
        CountAfterCreate(z, newId, ip, other);
      }
      rest := rest - {ip};
      left := left - 1;
    }
    ok := true;
  }

  /** Delete the one record the map names for each stale address. */
  method DeleteAll(zone: Zone, stale: map<Ip, RecId>, budget: nat) returns (ok: bool)
    requires zone.Valid()
    requires forall ip :: ip in stale ==> stale[ip] in zone.recs && zone.recs[stale[ip]] == Some(ip)
    modifies zone
    ensures zone.Valid()
    ensures forall id :: id in zone.recs ==> id in old(zone.recs) && zone.recs[id] == old(zone.recs)[id]
    ensures forall id :: id in old(zone.recs) && id !in zone.recs ==> exists ip :: ip in stale && stale[ip] == id
    ensures forall ip :: ip !in stale ==> Count(zone.recs, ip) == Count(old(zone.recs), ip)
    ensures ok ==> forall ip :: ip in stale ==> Count(zone.recs, ip) == Count(old(zone.recs), ip) - 1
    ensures ok <==> budget >= |stale|
  {
    hide Count;
    var rest := stale.Keys;
    var left := budget;
    assert |stale.Keys| == |stale|;
    while rest != {}
      invariant rest <= stale.Keys && zone.Valid()
      invariant left == budget - (|stale.Keys| - |rest|)
      invariant forall ip :: ip in rest ==> stale[ip] in zone.recs && zone.recs[stale[ip]] == Some(ip)
      invariant forall id :: id in zone.recs ==> id in old(zone.recs) && zone.recs[id] == old(zone.recs)[id]
      invariant forall id :: id in old(zone.recs) && id !in zone.recs ==> exists ip :: ip in stale && stale[ip] == id
      invariant forall ip :: Count(zone.recs, ip) == Count(old(zone.recs), ip) -
                                 if ip in stale.Keys - rest then 1 else 0
      decreases |rest|
    {
      if left == 0 {
        return false;
      }
      var ip :| ip in rest;
      ghost var z := zone.recs;
      zone.Delete(stale[ip]);
      forall other: Ip
        ensures Count(zone.recs, other) == Count(z, other) - if other == ip then 1 else 0
      {
        CountAfterDelete(z, stale[ip], ip, other);
      }
      rest := rest - {ip};
      left := left - 1;
    }
    ok := true;
  }

  function Missing(z: Records, addrs: set<Ip>): set<Ip> {
    set ip | ip in addrs && !(ip.V4? && Count(z, ip) > 0)
  }

  /** The unwanted V4 addresses that have a record. */
  function Stale(z: Records, addrs: set<Ip>): set<Ip> {
    set id | id in z && z[id].Some? && z[id].value.V4? && z[id].value !in addrs :: z[id].value
  }

  /** One pass. `budget` bounds the calls that succeed, so a small one shows every intermediate state. */
  method UpdateDns(zone: Zone, addrs: set<Ip>, budget: nat) returns (ok: bool)
    requires zone.Valid()
    modifies zone
    ensures zone.Valid()
    ensures Safe(old(zone.recs), zone.recs, addrs)
    ensures Unreadable(old(zone.recs)) ==> zone.recs == old(zone.recs)
    ensures ok <==> !Unreadable(old(zone.recs)) &&
                    budget >= |Missing(old(zone.recs), addrs)| + |Stale(old(zone.recs), addrs)|
    ensures ok ==> Passed(old(zone.recs), zone.recs, addrs)
    ensures budget < |Missing(old(zone.recs), addrs)| ==> forall id :: id in old(zone.recs) ==> id in zone.recs
  {
    hide Count, Safe, Passed, IdPerIp, Missing, Stale, ListedAsA, Unreadable;
    ghost var before := zone.recs;
    var listing := zone.ListA();
    var readable, byIp := IndexByIp(zone, listing);
    ListingReadable(before, listing);
    if !readable {
      Unchanged(before, addrs);
      return false;
    }
    var missing := set ip | ip in addrs && ip !in byIp;
    var stale := map ip | ip in byIp && ip !in addrs :: byIp[ip];
    Indexed(before, listing, byIp, addrs, missing, stale);
    var created, left := CreateAll(zone, missing, budget);
    ghost var mid := zone.recs;
    Created(before, mid, addrs);
    if !created {
      return false;
    }
    ok := DeleteAll(zone, stale, left);
    Deleted(before, mid, zone.recs, addrs, missing, stale);
    if ok {
      Completed(before, mid, zone.recs, addrs, missing, stale);
    }
  }

  ghost predicate Passed(before: Records, after: Records, addrs: set<Ip>) {
    !Unreadable(after) && forall ip :: Count(after, ip) == CountAfterPass(Count(before, ip), ip, ip in addrs)
  }

  lemma ListingReadable(z: Records, listing: seq<RecId>)
    requires forall id :: id in listing <==> id in z && ListedAsA(z[id])
    ensures (forall id :: id in listing ==> z[id].Some?) <==> !Unreadable(z)
  {
  }

  lemma Unchanged(z: Records, addrs: set<Ip>)
    ensures Safe(z, z, addrs)
  {
  }

  /** The map's keys are the V4 addresses that have a record. */
  lemma Indexed(z: Records, listing: seq<RecId>, byIp: map<Ip, RecId>, addrs: set<Ip>, missing: set<Ip>,
      stale: map<Ip, RecId>)
    requires forall id :: id in listing <==> id in z && ListedAsA(z[id])
    requires IdPerIp(z, listing, byIp)
    requires missing == set ip | ip in addrs && ip !in byIp
    requires stale == map ip | ip in byIp && ip !in addrs :: byIp[ip]
    ensures missing == Missing(z, addrs) && stale.Keys == Stale(z, addrs) && |stale| == |Stale(z, addrs)|
    ensures forall ip :: ip in stale ==> stale[ip] in z && z[stale[ip]] == Some(ip)
    ensures forall ip :: ip in stale <==> ip.V4? && Count(z, ip) > 0 && ip !in addrs
  {
    hide Count;
    forall ip
      ensures ip in byIp <==> ip.V4? && Count(z, ip) > 0
      ensures ip in stale <==> ip in Stale(z, addrs)
    {
      CountPositive(z, ip);
    }
    assert |stale.Keys| == |stale|;
  }

  lemma Created(before: Records, mid: Records, addrs: set<Ip>)
    requires forall id :: id in before ==> id in mid && mid[id] == before[id]
    requires forall ip :: Count(mid, ip) >= Count(before, ip)
    ensures Safe(before, mid, addrs)
  {
    hide Count;
  }

  lemma Deleted(before: Records, mid: Records, after: Records, addrs: set<Ip>, missing: set<Ip>, stale: map<Ip, RecId>)
    requires missing == Missing(before, addrs)
    requires forall ip :: ip in stale <==> ip.V4? && Count(before, ip) > 0 && ip !in addrs
    requires forall ip :: ip in stale ==> stale[ip] in before && before[stale[ip]] == Some(ip)
    requires forall id :: id in before ==> id in mid && mid[id] == before[id]
    requires forall ip :: Count(mid, ip) == Count(before, ip) + if ip in missing then 1 else 0
    requires forall id :: id in after ==> id in mid && after[id] == mid[id]
    requires forall id :: id in mid && id !in after ==> exists ip :: ip in stale && stale[ip] == id
    requires forall ip :: ip !in stale ==> Count(after, ip) == Count(mid, ip)
    ensures Safe(before, after, addrs)
  {
    hide Count;
  }

  lemma Completed(before: Records, mid: Records, after: Records, addrs: set<Ip>, missing: set<Ip>,
                  stale: map<Ip, RecId>)
    requires missing == Missing(before, addrs) && !Unreadable(before)
    requires forall ip :: ip in stale <==> ip.V4? && Count(before, ip) > 0 && ip !in addrs
    requires forall id :: id in before ==> id in mid && mid[id] == before[id]
    requires forall id :: id in mid && id !in before ==> mid[id].Some?
    requires forall ip :: Count(mid, ip) == Count(before, ip) + if ip in missing then 1 else 0
    requires forall id :: id in after ==> id in mid && after[id] == mid[id]
    requires forall ip :: ip !in stale ==> Count(after, ip) == Count(mid, ip)
    requires forall ip :: ip in stale ==> Count(after, ip) == Count(mid, ip) - 1
    ensures Passed(before, after, addrs)
  {
    hide Count;
  }

  // ---- Repeated passes ----

  /** The records for an address after `k` completed passes. */
  function CountAfter(count: nat, ip: Ip, wanted: bool, k: nat): nat {
    if ip.V6? then (if wanted then count + k else count)
    else if wanted then (if count == 0 && k > 0 then 1 else count)
    else if count <= k then 0
    else count - k
  }

  lemma CountAfterStep(count: nat, ip: Ip, wanted: bool, k: nat)
    ensures CountAfterPass(CountAfter(count, ip, wanted, k), ip, wanted) == CountAfter(count, ip, wanted, k + 1)
    ensures CountAfter(count, ip, wanted, 0) == count
  {
  }

  /** What an IPv4 lookup answers, once records have spread: the contents of the A records. */
  function Published(z: Records): set<Ip> {
    set id | id in z && z[id].Some? && z[id].value.V4? :: z[id].value
  }

  lemma PublishedIsCounted(z: Records, ip: Ip)
    ensures ip in Published(z) <==> ip.V4? && Count(z, ip) > 0
  {
    CountPositive(z, ip);
  }

  ghost predicate AllV4(addrs: set<Ip>) { forall ip :: ip in addrs ==> ip.V4? }

  /** The service loop: `k` wake-ups with the same public addresses, no other writer, and no failing call. A
      pass is made only while the published set differs. */
  method Reconcile(zone: Zone, addrs: set<Ip>, k: nat)
    requires zone.Valid()
    modifies zone
    ensures Unreadable(old(zone.recs)) ==> zone.recs == old(zone.recs)
    ensures !Unreadable(old(zone.recs)) ==>
              forall ip :: Count(zone.recs, ip) == CountAfter(Count(old(zone.recs), ip), ip, ip in addrs, k)
    ensures !Unreadable(old(zone.recs)) ==>
              (Published(zone.recs) == addrs <==> AllV4(addrs) && ConvergedBy(old(zone.recs), addrs, k))
  {
    hide Count, CountAfterPass, CountAfter, Published, Safe, Missing, Stale, Unreadable;
    ghost var start := zone.recs;
    ghost var readable := !Unreadable(start);
    NoPassYet(start, addrs);
    for i := 0 to k
      invariant zone.Valid() && (if readable then !Unreadable(zone.recs) else zone.recs == start)
      invariant readable ==> forall ip :: Count(zone.recs, ip) == CountAfter(Count(start, ip), ip, ip in addrs, i)
    {
      ghost var z := zone.recs;
      if Published(zone.recs) != addrs {
        var ok := UpdateDns(zone, addrs, |Missing(zone.recs, addrs)| + |Stale(zone.recs, addrs)|);
      } else {
        NothingToDo(z, addrs);
      }
      if readable {
        PassesAddUp(start, z, zone.recs, addrs, i);
      }
    }
    if readable {
      ConvergedIff(start, zone.recs, addrs, k);
    }
  }

  lemma NoPassYet(start: Records, addrs: set<Ip>)
    ensures forall ip :: Count(start, ip) == CountAfter(Count(start, ip), ip, ip in addrs, 0)
  {
    hide Count;
  }

  lemma PassesAddUp(start: Records, z: Records, z': Records, addrs: set<Ip>, i: nat)
    requires forall ip :: Count(z, ip) == CountAfter(Count(start, ip), ip, ip in addrs, i)
    requires forall ip :: Count(z', ip) == CountAfterPass(Count(z, ip), ip, ip in addrs)
    ensures forall ip :: Count(z', ip) == CountAfter(Count(start, ip), ip, ip in addrs, i + 1)
  {
    hide Count, CountAfterPass, CountAfter;
    forall ip: Ip
      ensures Count(z', ip) == CountAfter(Count(start, ip), ip, ip in addrs, i + 1)
    {
      CountAfterStep(Count(start, ip), ip, ip in addrs, i);
    }
  }

  /** Once the published set is the wanted one, a pass would change no count. */
  lemma NothingToDo(z: Records, addrs: set<Ip>)
    requires Published(z) == addrs
    ensures forall ip :: CountAfterPass(Count(z, ip), ip, ip in addrs) == Count(z, ip)
  {
    hide Count, Published;
    forall ip: Ip
      ensures CountAfterPass(Count(z, ip), ip, ip in addrs) == Count(z, ip)
    {
      PublishedIsCounted(z, ip);
    }
  }

  /** No stale address has more than `k` records, and something wanted is missing only before the first pass. */
  ghost predicate ConvergedBy(z: Records, addrs: set<Ip>, k: nat) {
    && (forall ip: Ip :: ip.V4? && ip !in addrs ==> Count(z, ip) <= k)
    && (k == 0 ==> forall ip :: ip in addrs ==> Count(z, ip) > 0)
  }

  lemma ConvergedIff(start: Records, z: Records, addrs: set<Ip>, k: nat)
    requires forall ip :: Count(z, ip) == CountAfter(Count(start, ip), ip, ip in addrs, k)
    ensures Published(z) == addrs <==> AllV4(addrs) && ConvergedBy(start, addrs, k)
  {
    hide Count, Published;
    forall ip
      ensures ip in Published(z) <==> ip.V4? && Count(z, ip) > 0
    {
      PublishedIsCounted(z, ip);
    }
    if AllV4(addrs) && ConvergedBy(start, addrs, k) {
      assert forall ip :: ip in Published(z) <==> ip in addrs;
    }
  }

  /** With a V6 address wanted the loop never settles, and every wake-up adds another record for it. */
  lemma V6NeverConverges(start: Records, z: Records, addrs: set<Ip>, ip: Ip, k: nat)
    requires ip in addrs && ip.V6?
    requires forall other :: Count(z, other) == CountAfter(Count(start, other), other, other in addrs, k)
    ensures Published(z) != addrs && Count(z, ip) == Count(start, ip) + k
  {
    PublishedIsCounted(z, ip);
  }

  /** If the service refuses the second record of a wanted V6 address, every pass ends at a create: after any number
      of wake-ups every record there was is still there, the stale ones too, and the loop has not settled.
      `through` is how many creates go through before the refused one. */
  method ReconcileRefused(zone: Zone, addrs: set<Ip>, ip: Ip, through: seq<nat>)
    requires zone.Valid() && ip in addrs && ip.V6?
    modifies zone
    ensures forall id :: id in old(zone.recs) ==> id in zone.recs
    ensures Published(zone.recs) != addrs
  {
    hide Count, Published, Safe, Missing, Stale, Unreadable, Passed;
    NeverPublished(zone.recs, addrs, ip);
    for i := 0 to |through|
      invariant zone.Valid() && Published(zone.recs) != addrs
      invariant forall id :: id in old(zone.recs) ==> id in zone.recs
    {
      var missing := Missing(zone.recs, addrs);
      AlwaysMissing(zone.recs, addrs, ip);
      var ok := UpdateDns(zone, addrs, if through[i] < |missing| then through[i] else |missing| - 1);
      NeverPublished(zone.recs, addrs, ip);
    }
  }

  lemma NeverPublished(z: Records, addrs: set<Ip>, ip: Ip)
    requires ip in addrs && ip.V6?
    ensures Published(z) != addrs
  {
    PublishedIsCounted(z, ip);
  }

  lemma AlwaysMissing(z: Records, addrs: set<Ip>, ip: Ip)
    requires ip in addrs && ip.V6?
    ensures |Missing(z, addrs)| > 0
  {
    assert ip in Missing(z, addrs);
  }
}
