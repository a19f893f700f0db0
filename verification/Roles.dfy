/** The trust ladder and the fail-closed gate every read path rests on, with its SQL twins. */
module Roles {
  import opened Wrappers

  datatype Role = Anonymous | Registered | Family | Admin

  function Rank(r: Role): nat {
    match r
    case Anonymous => 0
    case Registered => 1
    case Family => 2
    case Admin => 3
  }

  function Name(r: Role): string {
    match r
    case Anonymous => "Anonymous"
    case Registered => "Registered"
    case Family => "Family"
    case Admin => "Admin"
  }

  /** A visibility gate: none, or the role it asks for. */
  datatype MinRole = MinRole(gate: Option<Role>)

  function FromStored(raw: Option<string>): MinRole {
    if raw.None? then MinRole(None)
    else if raw.value == "Registered" then MinRole(Some(Registered))
    else if raw.value == "Family" then MinRole(Some(Family))
    else MinRole(Some(Admin))
  }

  function ToStored(m: MinRole): Option<string> {
    if m.gate.None? then None else Some(Name(m.gate.value))
  }

  function GateRank(m: MinRole): nat {
    if m.gate.None? then 0 else Rank(m.gate.value)
  }

  predicate Passes(m: MinRole, viewer: Role) {
    Rank(viewer) >= GateRank(m)
  }

  /** Who a stored gate admits, said without ranks: everyone when there is none; family and admins for "Family";
      any signed-in role for "Registered"; and admins alone for any other text. */
  predicate Admits(raw: Option<string>, viewer: Role) {
    raw.None? || viewer == Admin || (viewer == Family && (raw.value == "Family" || raw.value == "Registered")) ||
    (viewer == Registered && raw.value == "Registered")
  }

  /** The decoded gate and the CASE both admit exactly those. */
  lemma AdmitsIff(raw: Option<string>, viewer: Role)
    ensures Passes(FromStored(raw), viewer) <==> Admits(raw, viewer)
    ensures Rank(viewer) >= SqlCase(raw) <==> Admits(raw, viewer)
  {
  }

  function ApplyWrite(m: MinRole, wire: Option<string>): MinRole {
    if wire == Some("Public") then MinRole(None)
    else if wire == Some("Registered") then MinRole(Some(Registered))
    else if wire == Some("Family") then MinRole(Some(Family))
    else if wire == Some("Admin") then MinRole(Some(Admin))
    else m
  }

  /** The literal CASE of the paged and byte-serve queries. */
  function SqlCase(raw: Option<string>): nat {
    if raw.None? then 0
    else if raw.value == "Registered" then 1
    else if raw.value == "Family" then 2
    else 3
  }

  /** The CASE is the decode, on every stored string. */
  lemma CaseIsDecode(raw: Option<string>)
    ensures SqlCase(raw) == GateRank(FromStored(raw))
    ensures SqlCase(raw) == 0 <==> raw.None?
  {
  }

  /** What is stored after an authoring value is written: the gate it names, or none for "Public"; any other value
      leaves who is admitted as it was. So the gate gets looser for a viewer only when the value names the looser
      gate outright. */
  lemma WriteThenRead(raw: Option<string>, wire: Option<string>, viewer: Role)
    ensures var stored := ToStored(ApplyWrite(FromStored(raw), wire));
            (if wire == Some("Public") then stored == None
             else if wire == Some("Registered") || wire == Some("Family") || wire == Some("Admin") then stored == wire
             else Admits(stored, viewer) == Admits(raw, viewer)) &&
            FromStored(stored) == ApplyWrite(FromStored(raw), wire) &&
            (Admits(stored, viewer) && !Admits(raw, viewer) ==>
               wire == Some("Public") || wire == Some("Registered") || wire == Some("Family"))
  {
  }

  // ---- The byte route: the strictest owner ----

  datatype Variant = Variant(mediaId: string, urlKey: string)

  /** The stored gates of the items owning a variant of this key, one per row of the join. */
  function Owners(variants: seq<Variant>, media: map<string, Option<string>>, key: string): (o: seq<Option<string>>)
    ensures forall v :: v in variants && v.urlKey == key && v.mediaId in media ==> media[v.mediaId] in o
    ensures forall raw :: raw in o ==>
        exists v :: v in variants && v.urlKey == key && v.mediaId in media && media[v.mediaId] == raw
  {
    if variants == [] then []
    else
      var rest := Owners(variants[1..], media, key);
      var v := variants[0];
      if v.urlKey == key && v.mediaId in media then [media[v.mediaId]] + rest else rest
  }

  /** `MAX` over the CASE; NULL when there is no owner. */
  function MaxRank(gates: seq<Option<string>>): Option<nat> {
    if gates == [] then None
    else match MaxRank(gates[1..])
      case None => Some(SqlCase(gates[0]))
      case Some(m) => Some(if SqlCase(gates[0]) > m then SqlCase(gates[0]) else m)
  }

  lemma {:induction false} MaxRankIsStrictest(gates: seq<Option<string>>, viewer: Role)
    requires gates != []
    ensures MaxRank(gates).Some?
    ensures Rank(viewer) >= MaxRank(gates).value <==> forall raw :: raw in gates ==> Admits(raw, viewer)
  {
    hide Admits, Rank, SqlCase;
    AdmitsIff(gates[0], viewer);
    assert gates == [gates[0]] + gates[1..];
    if |gates| == 1 {
      assert gates[0] in gates;
    } else {
      MaxRankIsStrictest(gates[1..], viewer);
    }
  }

  /** A viewer passes a shared key's required rank exactly when they pass every owning item's gate. */
  lemma StrictestOwner(variants: seq<Variant>, media: map<string, Option<string>>, key: string, viewer: Role)
    requires exists v :: v in variants && v.urlKey == key && v.mediaId in media
    ensures MaxRank(Owners(variants, media, key)).Some?
    ensures Rank(viewer) >= MaxRank(Owners(variants, media, key)).value <==>
            forall v :: v in variants && v.urlKey == key && v.mediaId in media ==> Admits(media[v.mediaId], viewer)
  {
    hide Admits, Rank;
    var gates := Owners(variants, media, key);
    var v :| v in variants && v.urlKey == key && v.mediaId in media;
    assert media[v.mediaId] in gates;
    MaxRankIsStrictest(gates, viewer);
  }
}
