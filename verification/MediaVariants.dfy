/** The variants of an image item: which one is the uploaded source, the srcset ladders, and re-derivation,
    which drops the derived rungs and appends new ones. */
module MediaVariants {
  import opened Wrappers
  import opened Sorting

  datatype Variant = Variant(id: nat, sha: string, mime: string, width: Option<int>)

  const AVIF: string := "image/avif"

  predicate IsImage(v: Variant) { "image/" <= v.mime }

  predicate IsWebDisplayable(v: Variant) {
    IsImage(v) && v.mime != "image/heic" && v.mime != "image/heif"
  }

  // ---- source_image ----

  /** The first variant that is an image and not an AVIF. */
  function FirstOriginal(variants: seq<Variant>): Option<Variant> {
    if variants == [] then None
    else if IsImage(variants[0]) && variants[0].mime != AVIF then Some(variants[0])
    else FirstOriginal(variants[1..])
  }

  function FirstImage(variants: seq<Variant>): Option<Variant> {
    if variants == [] then None
    else if IsImage(variants[0]) then Some(variants[0])
    else FirstImage(variants[1..])
  }

  function SourceImage(variants: seq<Variant>): Option<Variant> {
    if FirstOriginal(variants).Some? then FirstOriginal(variants) else FirstImage(variants)
  }

  lemma {:induction false} FirstsMean(variants: seq<Variant>)
    ensures FirstOriginal(variants).Some? ==> FirstOriginal(variants).value in variants &&
                                              IsImage(FirstOriginal(variants).value) &&
                                              FirstOriginal(variants).value.mime != AVIF
    ensures FirstOriginal(variants).None? ==> forall v :: v in variants && IsImage(v) ==> v.mime == AVIF
    ensures FirstImage(variants).Some? ==> FirstImage(variants).value in variants && IsImage(FirstImage(variants).value)
    ensures FirstImage(variants).None? ==> forall v :: v in variants ==> !IsImage(v)
  {
    if variants != [] {
      FirstsMean(variants[1..]);
      assert variants == [variants[0]] + variants[1..];
    }
  }

  predicate IsOriginal(v: Variant) { "image/" <= v.mime && v.mime != "image/avif" }

  ghost predicate FirstOf(variants: seq<Variant>, v: Variant, fits: Variant -> bool) {
    exists i :: 0 <= i < |variants| && variants[i] == v && fits(v) && forall j :: 0 <= j < i ==> !fits(variants[j])
  }

  lemma {:induction false} FirstsAre(variants: seq<Variant>, v: Variant)
    ensures FirstOriginal(variants) == Some(v) <==> FirstOf(variants, v, (u: Variant) => IsOriginal(u))
    ensures FirstImage(variants) == Some(v) <==> FirstOf(variants, v, (u: Variant) => "image/" <= u.mime)
  {
    if variants != [] {
      var rest := variants[1..];
      FirstsAre(rest, v);
      FirstOfStep(variants, v, (u: Variant) => IsOriginal(u));
      FirstOfStep(variants, v, (u: Variant) => "image/" <= u.mime);
    }
  }

  lemma FirstOfStep(variants: seq<Variant>, v: Variant, fits: Variant -> bool)
    requires variants != []
    ensures FirstOf(variants, v, fits) <==>
            if fits(variants[0]) then v == variants[0] else FirstOf(variants[1..], v, fits)
  {
    var rest := variants[1..];
    assert forall i :: 0 <= i < |rest| ==> rest[i] == variants[i + 1];
    if FirstOf(rest, v, fits) && !fits(variants[0]) {
      var i :| 0 <= i < |rest| && rest[i] == v && fits(v) && forall j :: 0 <= j < i ==> !fits(rest[j]);
      assert variants[i + 1] == v && forall j :: 0 < j < i + 1 ==> variants[j] == rest[j - 1];
    }
    if FirstOf(variants, v, fits) {
      var i :| 0 <= i < |variants| && variants[i] == v && fits(v) && forall j :: 0 <= j < i ==> !fits(variants[j]);
      assert i > 0 ==> rest[i - 1] == v && forall j :: 0 <= j < i - 1 ==> rest[j] == variants[j + 1];
    }
  }

  /** The source is the first image that is no AVIF, and the first image only if all images are AVIFs. */
  lemma SourceImageIff(variants: seq<Variant>, v: Variant)
    ensures SourceImage(variants) == Some(v) <==>
            FirstOf(variants, v, (u: Variant) => IsOriginal(u)) ||
            ((forall u :: u in variants ==> !IsOriginal(u)) && FirstOf(variants, v, (u: Variant) => "image/" <= u.mime))
  {
    hide FirstOf;
    FirstsMean(variants);
    FirstsAre(variants, v);
    if FirstOriginal(variants).Some? {
      FirstsAre(variants, FirstOriginal(variants).value);
    }
  }

  // ---- The two writes of a re-derivation ----

  /** `delete_avif_rungs_except`. */
  function WithoutRungs(variants: seq<Variant>, keep: string): (r: seq<Variant>)
    ensures forall v :: v in r <==> v in variants && !(v.mime == AVIF && v.sha != keep)
  {
    if variants == [] then []
    else
      assert variants == [variants[0]] + variants[1..];
      var rest := WithoutRungs(variants[1..], keep);
      if variants[0].mime == AVIF && variants[0].sha != keep then rest else [variants[0]] + rest
  }

  lemma {:induction false} FirstsAfterDrop(variants: seq<Variant>, keep: string)
    ensures FirstOriginal(WithoutRungs(variants, keep)) == FirstOriginal(variants)
    ensures (FirstImage(variants).Some? &&
             (FirstImage(variants).value.mime != AVIF || FirstImage(variants).value.sha == keep)) ==>
              FirstImage(WithoutRungs(variants, keep)) == FirstImage(variants)
  {
    if variants != [] {
      FirstsAfterDrop(variants[1..], keep);
    }
  }

  /** Dropping the rungs leaves the source the same variant exactly when it is no AVIF or carries the kept hash. */
  lemma DropKeepsSourceIff(variants: seq<Variant>, keep: string)
    requires SourceImage(variants).Some?
    ensures SourceImage(WithoutRungs(variants, keep)) == SourceImage(variants) <==>
            SourceImage(variants).value.mime != AVIF || SourceImage(variants).value.sha == keep
  {
    FirstsMean(variants);
    FirstsMean(WithoutRungs(variants, keep));
    FirstsAfterDrop(variants, keep);
  }

  lemma {:induction false} FirstsAfterAppend(variants: seq<Variant>, v: Variant)
    ensures FirstOriginal(variants + [v]) ==
            if FirstOriginal(variants).Some? then FirstOriginal(variants)
            else if IsImage(v) && v.mime != AVIF then Some(v) else None
    ensures FirstImage(variants + [v]) ==
            if FirstImage(variants).Some? then FirstImage(variants) else if IsImage(v) then Some(v) else None
  {
    if variants != [] {
      FirstsAfterAppend(variants[1..], v);
      assert (variants + [v])[1..] == variants[1..] + [v];
    } else {
      assert [] + [v] == [v];
    }
  }

  /** Appending a variant changes the source exactly when a non-AVIF image joins an item that had only AVIFs. */
  lemma AppendKeepsSourceIff(variants: seq<Variant>, v: Variant)
    requires SourceImage(variants).Some?
    ensures SourceImage(variants + [v]) == SourceImage(variants) <==>
            !(IsImage(v) && v.mime != AVIF && SourceImage(variants).value.mime == AVIF)
  {
    FirstsMean(variants);
    FirstsAfterAppend(variants, v);
  }

  // ---- Rounds of re-derivation, overlapping in any way ----

  /** Each request first picks the source, then drops the rungs but its hash, then appends rungs one by one in
      the background, each under a fresh and therefore larger id. `picked` holds the hashes picked so far. */
  datatype State = State(variants: seq<Variant>, picked: set<string>)

  datatype Event = Pick | DropRungs(keep: string) | AppendRung(v: Variant)

  ghost predicate Enabled(s: State, e: Event) {
    match e
    case Pick => true
    case DropRungs(keep) => keep in s.picked
    case AppendRung(v) => v.mime == AVIF && forall u :: u in s.variants ==> u.id < v.id
  }

  function Apply(s: State, e: Event): State {
    match e
    case Pick => (match SourceImage(s.variants)
                  case None => s
                  case Some(v) => s.(picked := s.picked + {v.sha}))
    case DropRungs(keep) => s.(variants := WithoutRungs(s.variants, keep))
    case AppendRung(v) => s.(variants := s.variants + [v])
  }

  function Run(s: State, events: seq<Event>): State
    decreases |events|
  {
    if events == [] then s else Apply(Run(s, events[..|events| - 1]), events[|events| - 1])
  }

  ghost predicate Legal(s: State, events: seq<Event>)
    decreases |events|
  {
    events == [] ||
    (Legal(s, events[..|events| - 1]) && Enabled(Run(s, events[..|events| - 1]), events[|events| - 1]))
  }

  /** However many rounds run, and however they overlap, the source stays the same variant. */
  lemma {:induction false} SourceIsStable(s: State, events: seq<Event>)
    requires SourceImage(s.variants).Some? && s.picked == {} && Legal(s, events)
    ensures SourceImage(Run(s, events).variants) == SourceImage(s.variants)
    ensures Run(s, events).picked <= {SourceImage(s.variants).value.sha}
    decreases |events|
  {
    if events != [] {
      hide SourceImage;
      var before, e := events[..|events| - 1], events[|events| - 1];
      SourceIsStable(s, before);
      var s1 := Run(s, before);
      match e
      case Pick =>
      case DropRungs(keep) => DropKeepsSourceIff(s1.variants, keep);
      case AppendRung(v) => AppendKeepsSourceIff(s1.variants, v);
    }
  }

  // ---- The ladders ----

  predicate InLadder(v: Variant) { IsWebDisplayable(v) && v.width.Some? }

  /** An edited item's ladder leaves out everything that has the source's bytes. */
  predicate InEditedLadder(source: Option<Variant>, v: Variant) {
    InLadder(v) && (source.Some? ==> v.sha != source.value.sha)
  }

  function Eligible(source: Option<Variant>, variants: seq<Variant>): (r: seq<Variant>)
    ensures forall v :: v in r <==> v in variants && InEditedLadder(source, v)
  {
    if variants == [] then []
    else
      assert variants == [variants[0]] + variants[1..];
      var rest := Eligible(source, variants[1..]);
      if InEditedLadder(source, variants[0]) then [variants[0]] + rest else rest
  }

  function Width(v: Variant): int { if v.width.Some? then v.width.value else 0 }

  function NoWider(): (Variant, Variant) -> bool {
    (a: Variant, b: Variant) => Width(a) <= Width(b)
  }

  function EarlierId(): (Variant, Variant) -> bool {
    (a: Variant, b: Variant) => a.id < b.id
  }

  function ImageLadderEdited(variants: seq<Variant>): seq<Variant> {
    Sort(NoWider(), Eligible(SourceImage(variants), variants))
  }

  /** In the database's order: ascending ids. */
  ghost predicate InIdOrder(s: seq<Variant>) { InOrder(EarlierId(), s) }

  /** Ascending by width, and by id among equal widths. */
  ghost predicate Ascending(s: seq<Variant>) { InOrder(Then(NoWider(), EarlierId()), s) }

  lemma {:induction false} EligibleInIdOrder(source: Option<Variant>, variants: seq<Variant>)
    requires InIdOrder(variants)
    ensures InIdOrder(Eligible(source, variants))
  {
    hide InEditedLadder;
    if variants != [] {
      EligibleInIdOrder(source, variants[1..]);
      var rest := Eligible(source, variants[1..]);
      forall i | 0 <= i < |rest|
        ensures variants[0].id < rest[i].id
      {
        assert rest[i] in variants[1..];
      }
    }
  }

  lemma {:induction false} DropInIdOrder(variants: seq<Variant>, keep: string)
    requires InIdOrder(variants)
    ensures InIdOrder(WithoutRungs(variants, keep))
  {
    if variants != [] {
      DropInIdOrder(variants[1..], keep);
      var rest := WithoutRungs(variants[1..], keep);
      forall i | 0 <= i < |rest|
        ensures variants[0].id < rest[i].id
      {
        assert rest[i] in variants[1..];
      }
    }
  }

  lemma {:induction false} RunInIdOrder(s: State, events: seq<Event>)
    requires InIdOrder(s.variants) && Legal(s, events)
    ensures InIdOrder(Run(s, events).variants)
    decreases |events|
  {
    if events != [] {
      var before, e := events[..|events| - 1], events[|events| - 1];
      RunInIdOrder(s, before);
      if e.DropRungs? {
        DropInIdOrder(Run(s, before).variants, e.keep);
      }
    }
  }

  /** The edited ladder: the variants of known width, HEIC and HEIF aside, without the source's bytes; narrowest first
      and equal widths in id order. */
  lemma EditedLadder(variants: seq<Variant>)
    requires InIdOrder(variants)
    ensures Ascending(ImageLadderEdited(variants))
    ensures forall v :: v in ImageLadderEdited(variants) <==>
              v in variants && "image/" <= v.mime && v.mime != "image/heic" && v.mime != "image/heif" &&
              v.width.Some? && (SourceImage(variants).Some? ==> v.sha != SourceImage(variants).value.sha)
    ensures var s := ImageLadderEdited(variants);
            forall i, j :: 0 <= i < j < |s| ==>
              s[i].width.Some? && s[j].width.Some? &&
              (s[i].width.value < s[j].width.value || (s[i].width == s[j].width && s[i].id < s[j].id))
  {
    hide SourceImage;
    EligibleInIdOrder(SourceImage(variants), variants);
    SortIsStable(NoWider(), EarlierId(), Eligible(SourceImage(variants), variants));
    assert forall v :: InLadder(v) <==>
             "image/" <= v.mime && v.mime != "image/heic" && v.mime != "image/heif" && v.width.Some?;
    WidthsAscend(ImageLadderEdited(variants));
  }

  lemma WidthsAscend(s: seq<Variant>)
    requires Ascending(s) && forall v :: v in s ==> v.width.Some?
    ensures forall i, j :: 0 <= i < j < |s| ==>
              s[i].width.Some? && s[j].width.Some? &&
              (s[i].width.value < s[j].width.value || (s[i].width == s[j].width && s[i].id < s[j].id))
  {
    assert forall i :: 0 <= i < |s| ==> s[i] in s;
  }

  /** After any rounds of re-derivation the edited ladder still leaves out the original upload's bytes. */
  lemma EditedLadderNeverShowsOriginal(s: State, events: seq<Event>)
    requires SourceImage(s.variants).Some? && s.picked == {} && Legal(s, events)
    requires InIdOrder(s.variants)
    ensures Ascending(ImageLadderEdited(Run(s, events).variants))
    ensures forall v :: v in ImageLadderEdited(Run(s, events).variants) ==> v.sha != SourceImage(s.variants).value.sha
  {
    hide Run, Legal, SourceImage, ImageLadderEdited, Ascending, InIdOrder;
    SourceIsStable(s, events);
    RunInIdOrder(s, events);
    EditedLadder(Run(s, events).variants);
  }
}
