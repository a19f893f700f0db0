/** The greylist table and the in-memory set the request path reads. Times are whole seconds. */
module Greylist {
  import opened Wrappers
  import opened Detection

  /** `evidence` keeps the feature counts the row's text is formatted from. */
  datatype Entry = Entry(reason: string, evidence: Option<IpFeatures>, manual: bool, expiresAt: Option<int>)

  type Table = map<string, Entry>

  predicate IsActive(e: Entry, now: int) {
    e.manual || (e.expiresAt.Some? && e.expiresAt.value > now)
  }

  // ---- The statements, on table values ----

  function UpsertAuto(t: Table, ip: string, reason: string, evidence: Option<IpFeatures>, expires: int): Table {
    t[ip := Entry(reason, evidence, ip in t && t[ip].manual, Some(expires))]
  }

  function PinManual(t: Table, ip: string, reason: string): Table {
    t[ip := Entry(reason, if ip in t then t[ip].evidence else None, true, None)]
  }

  function PruneExpired(t: Table, now: int): Table {
    map ip | ip in t && (t[ip].manual || t[ip].expiresAt.None? || t[ip].expiresAt.value > now) :: t[ip]
  }

  function Active(t: Table, now: int): set<string> {
    set ip | ip in t && IsActive(t[ip], now)
  }

  lemma PruneSize(t: Table, now: int)
    ensures |PruneExpired(t, now)| <= |t|
  {
    var kept := PruneExpired(t, now).Keys;
    assert t.Keys == kept + (t.Keys - kept);
  }

  class GreylistTable {
    var rows: Table

    constructor ()
      ensures rows == map[]
    {
      rows := map[];
    }

    method Upsert(ip: string, reason: string, evidence: Option<IpFeatures>, expires: int)
      modifies this
      ensures rows == UpsertAuto(old(rows), ip, reason, evidence, expires)
      ensures ip in rows && rows[ip] == Entry(reason, evidence, ip in old(rows) && old(rows)[ip].manual, Some(expires))
      ensures rows.Keys == old(rows).Keys + {ip} && forall other :: other in old(rows) && other != ip ==>
                rows[other] == old(rows)[other]
    {
      if ip in rows {
        rows := rows[ip := rows[ip].(reason := reason, evidence := evidence, expiresAt := Some(expires))];
      } else {
        rows := rows[ip := Entry(reason, evidence, false, Some(expires))];
      }
    }

    method Pin(ip: string, reason: string)
      modifies this
      ensures rows == PinManual(old(rows), ip, reason)
      ensures ip in rows &&
              rows[ip] == Entry(reason, if ip in old(rows) then old(rows)[ip].evidence else None, true, None)
      ensures rows.Keys == old(rows).Keys + {ip} && forall other :: other in old(rows) && other != ip ==>
                rows[other] == old(rows)[other]
    {
      if ip in rows {
        rows := rows[ip := rows[ip].(reason := reason, manual := true, expiresAt := None)];
      } else {
        rows := rows[ip := Entry(reason, None, true, None)];
      }
    }

    method Release(ip: string) returns (removed: nat)
      modifies this
      ensures rows == old(rows) - {ip}
      ensures removed == if ip in old(rows) then 1 else 0
    {
      removed := if ip in rows then 1 else 0;
      rows := rows - {ip};
    }

    /** An automatic row goes exactly when its expiry is no later than now; what is active stays active. */
    method Prune(now: int) returns (removed: nat)
      modifies this
      ensures rows == PruneExpired(old(rows), now)
      ensures forall ip :: ip in rows <==>
                ip in old(rows) && !(!old(rows)[ip].manual && old(rows)[ip].expiresAt.Some? &&
                                     old(rows)[ip].expiresAt.value <= now)
      ensures forall ip :: ip in rows ==> rows[ip] == old(rows)[ip]
      ensures removed == |old(rows)| - |rows|
      ensures Active(rows, now) == Active(old(rows), now)
    {
      var kept := PruneExpired(rows, now);
      PruneSize(rows, now);
      removed := |rows| - |kept|;
      rows := kept;
    }
  }

  class GreylistSet {
    var inner: set<string>
    var allow: set<string>

    constructor ()
      ensures inner == {} && allow == {}
    {
      inner, allow := {}, {};
    }

    method Refresh(active: set<string>)
      modifies this`inner
      ensures inner == active
    {
      inner := active;
    }

    method SetPublicIps(ips: set<string>)
      modifies this`allow
      ensures allow == ips
    {
      allow := ips;
    }

    predicate IsGreylisted(ip: string)
      reads this
    {
      ip !in allow && ip in inner
    }

    method Insert(ip: string)
      modifies this`inner
      ensures inner == old(inner) + {ip}
      ensures IsGreylisted(ip) <==> ip !in allow
    {
      inner := inner + {ip};
    }

    method Remove(ip: string)
      modifies this`inner
      ensures inner == old(inner) - {ip} && !IsGreylisted(ip)
    {
      inner := inner - {ip};
    }
  }
}
