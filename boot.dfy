/** Start-up state of the bot process (nexichat/__main__.py): the uptime
    formatter and the in-memory mirror of the clone-owner collection. */
module Boot {
  import opened Base

  // ---------------------------------------------------------------------------
  // Uptime formatting

  datatype Unit = Day | Hour | Minute | Second

  function UnitSeconds(u: Unit): nat
  {
    match u
    case Day => 86400
    case Hour => 3600
    case Minute => 60
    case Second => 1
  }

  function UnitName(u: Unit): string
  {
    match u
    case Day => "day"
    case Hour => "hour"
    case Minute => "minute"
    case Second => "second"
  }

  /** Position of a unit in the order the formatter emits them. */
  function UnitRank(u: Unit): nat
  {
    match u
    case Day => 0
    case Hour => 1
    case Minute => 2
    case Second => 3
  }

  const Units: seq<Unit> := [Day, Hour, Minute, Second]

  datatype Part = Part(value: nat, unit: Unit)

  /** The four values of a positive duration, by repeated divmod. */
  function AllParts(n: nat): (ps: seq<Part>)
    ensures |ps| == 4
    ensures forall i :: 0 <= i < 4 ==> ps[i].unit == Units[i]
  {
    var d, r1 := n / 86400, n % 86400;
    var h, r2 := r1 / 3600, r1 % 3600;
    var m, r3 := r2 / 60, r2 % 60;
    [Part(d, Day), Part(h, Hour), Part(m, Minute), Part(r3, Second)]
  }

  /** What is left of n once the first i units have been taken out. */
  function Remaining(n: nat, i: nat): nat
    requires i <= 4
  {
    if i == 0 then n
    else if i == 1 then n % 86400
    else if i == 2 then n % 86400 % 3600
    else if i == 3 then n % 86400 % 3600 % 60
    else 0
  }

  function NonZero(ps: seq<Part>): (r: seq<Part>)
    ensures forall p :: p in r ==> p in ps && p.value > 0
    ensures forall p :: p in ps && p.value > 0 ==> p in r
  {
    if ps == [] then []
    else
      var last := ps[|ps| - 1];
      assert forall p :: p in ps <==> p in ps[..|ps| - 1] || p == last;
      NonZero(ps[..|ps| - 1]) + (if last.value > 0 then [last] else [])
  }

  /** The parts the formatter emits: the non-zero values, largest unit first. */
  function Breakdown(seconds: int): seq<Part>
  {
    if seconds <= 0 then [] else NonZero(AllParts(seconds))
  }

  /** One part as text, with a plural "s" only above one. */
  function PartText(p: Part): string
  {
    NatToString(p.value) + " " + UnitName(p.unit) + (if p.value > 1 then "s" else "")
  }

  function PartTexts(ps: seq<Part>): (r: seq<string>)
    ensures |r| == |ps|
    ensures forall i :: 0 <= i < |ps| ==> r[i] == PartText(ps[i])
  {
    if ps == [] then [] else PartTexts(ps[..|ps| - 1]) + [PartText(ps[|ps| - 1])]
  }

  function Render(ps: seq<Part>): string
  {
    if ps == [] then "0 seconds" else Join(", ", PartTexts(ps))
  }

  /** One step of the formatter: unit i is emitted exactly when the rest is at
      least one of it, with the value and remainder of the divmod. */
  lemma StepFacts(n: nat, i: nat)
    requires i < 4
    ensures var all, size := AllParts(n), UnitSeconds(Units[i]);
            var rem := Remaining(n, i);
            && (rem >= size ==> rem / size == all[i].value > 0 && rem % size == Remaining(n, i + 1))
            && (rem < size ==> all[i].value == 0 && Remaining(n, i + 1) == rem)
            && NonZero(all[..i + 1]) == NonZero(all[..i]) + (if all[i].value > 0 then [all[i]] else [])
  {
    var all := AllParts(n);
    assert all[..i + 1][..i] == all[..i];
  }

  lemma PartTextsAppend(ps: seq<Part>, p: Part)
    ensures PartTexts(ps + [p]) == PartTexts(ps) + [PartText(p)]
  {
    assert (ps + [p])[..|ps|] == ps;
  }

  /** get_readable_time */
  method GetReadableTime(seconds: int) returns (s: string)
    ensures s == Render(Breakdown(seconds))
  {
    var result: seq<string> := [];
    var rem := seconds;
    var i := 0;
    while i < |Units|
      invariant 0 <= i <= |Units|
      invariant seconds <= 0 ==> rem == seconds && result == []
      invariant seconds > 0 ==> rem == Remaining(seconds, i) &&
                                result == PartTexts(NonZero(AllParts(seconds)[..i]))
    {
      var unit := Units[i];
      var size := UnitSeconds(unit);
      if seconds > 0 {
        StepFacts(seconds, i);
        if rem >= size {
          PartTextsAppend(NonZero(AllParts(seconds)[..i]), AllParts(seconds)[i]);
        } else {
          assert NonZero(AllParts(seconds)[..i]) + [] == NonZero(AllParts(seconds)[..i]);
        }
      }
      if rem >= size {
        var value := rem / size;
        rem := rem % size;
        result := result + [PartText(Part(value, unit))];
      }
      i := i + 1;
    }
    assert seconds > 0 ==> AllParts(seconds)[..4] == AllParts(seconds);
    s := if result != [] then Join(", ", result) else "0 seconds";
  }

  /** The total of the values of a list of parts, in seconds. */
  function Total(ps: seq<Part>): nat
  {
    if ps == [] then 0 else Total(ps[..|ps| - 1]) + ps[|ps| - 1].value * UnitSeconds(ps[|ps| - 1].unit)
  }

  lemma {:induction false} TotalNonZero(ps: seq<Part>)
    ensures Total(NonZero(ps)) == Total(ps)
  {
    if ps != [] {
      var init, last := ps[..|ps| - 1], ps[|ps| - 1];
      TotalNonZero(init);
      var r := NonZero(init) + (if last.value > 0 then [last] else []);
      assert r == NonZero(ps);
      if last.value > 0 {
        assert r[..|r| - 1] == NonZero(init);
        assert r[|r| - 1] == last;
      } else {
        assert r == NonZero(init);
      }
    }
  }

  /** The emitted values, times their unit lengths, add up to the input. */
  lemma BreakdownTotal(seconds: int)
    requires seconds >= 0
    ensures Total(Breakdown(seconds)) == seconds
  {
    if seconds > 0 {
      var ps := AllParts(seconds);
      TotalNonZero(ps);
      assert ps[..|ps| - 1] == ps[..3];
      assert ps[..3][..2] == ps[..2];
      assert ps[..2][..1] == ps[..1];
      assert ps[..1][..0] == [];
      assert Total(ps[..1]) == ps[0].value * 86400;
      assert Total(ps[..2]) == Total(ps[..1]) + ps[1].value * 3600;
      assert Total(ps[..3]) == Total(ps[..2]) + ps[2].value * 60;
      assert Total(ps) == Total(ps[..3]) + ps[3].value;
    }
  }

  /** The emitted parts are non-zero, in the order day, hour, minute, second,
      and the smaller units stay below their next larger one. */
  lemma BreakdownShape(seconds: int)
    ensures var ps := Breakdown(seconds);
            && (forall p :: p in ps ==> p.value >= 1)
            && (forall i, j :: 0 <= i < j < |ps| ==> UnitRank(ps[i].unit) < UnitRank(ps[j].unit))
            && (forall p :: p in ps && p.unit == Hour ==> p.value < 24)
            && (forall p :: p in ps && (p.unit == Minute || p.unit == Second) ==> p.value < 60)
  {
    if seconds > 0 {
      var all := AllParts(seconds);
      NonZeroPrefixRanks(all, 4);
      assert all[..4] == all;
      AllPartsBounds(seconds);
      var ps := NonZero(all);
      forall p | p in ps
        ensures (p.unit == Hour ==> p.value < 24) && (p.unit == Minute || p.unit == Second ==> p.value < 60)
      {
        assert p in all;
        assert p == all[0] || p == all[1] || p == all[2] || p == all[3];
      }
    }
  }

  lemma AllPartsBounds(n: nat)
    ensures AllParts(n)[1].value < 24 && AllParts(n)[2].value < 60 && AllParts(n)[3].value < 60
  {
    var r1 := n % 86400;
    var r2 := r1 % 3600;
    assert r1 < 86400 && r1 / 3600 < 24;
    assert r2 / 60 < 60 && r2 % 60 < 60;
  }

  /** Every part of the list has a rank below k, and ranks increase strictly. */
  ghost predicate NonZeroRanks(ps: seq<Part>, k: nat)
  {
    && (forall p :: p in ps ==> UnitRank(p.unit) < k)
    && (forall i, j :: 0 <= i < j < |ps| ==> UnitRank(ps[i].unit) < UnitRank(ps[j].unit))
  }

  lemma {:induction false} NonZeroPrefixRanks(all: seq<Part>, k: nat)
    requires |all| == 4 && k <= 4
    requires forall i :: 0 <= i < 4 ==> all[i].unit == Units[i]
    ensures NonZeroRanks(NonZero(all[..k]), k)
  {
    if k > 0 {
      NonZeroPrefixRanks(all, k - 1);
      assert all[..k][..k - 1] == all[..k - 1];
      assert UnitRank(all[k - 1].unit) == k - 1;
    }
  }

  /** Only a positive input has a non-empty breakdown; the rest read "0 seconds". */
  lemma BreakdownEmptyIff(seconds: int)
    ensures Breakdown(seconds) == [] <==> seconds < 1
    ensures seconds < 1 ==> Render(Breakdown(seconds)) == "0 seconds"
  {
    if seconds >= 1 {
      BreakdownTotal(seconds);
    }
  }

  /** A part's text ends in "s" exactly when its value is above one. */
  lemma PluralIff(p: Part)
    ensures var t := PartText(p); t[|t| - 1] == 's' <==> p.value > 1
  {
  }

  // ---------------------------------------------------------------------------
  // Clone owners

  /** A document of the clone-owner collection: its bot_id and user_id fields, when present. */
  datatype CloneDoc = CloneDoc(botId: Option<int>, userId: Option<int>)

  /** The mirror after loading a scan of the collection: documents without a
      bot_id are not selected; one without a user_id raises and ends the load. */
  function Loaded(owners: map<int, int>, docs: seq<CloneDoc>): map<int, int>
    decreases |docs|
  {
    if docs == [] then owners
    else if docs[0].botId.None? then Loaded(owners, docs[1..])
    else if docs[0].userId.None? then owners
    else Loaded(owners[docs[0].botId.value := docs[0].userId.value], docs[1..])
  }

  predicate Complete(d: CloneDoc)
  {
    d.botId.Some? && d.userId.Some?
  }

  /** With complete documents, a bot maps to the user of its last document. */
  lemma {:induction false} LoadedLastWins(owners: map<int, int>, docs: seq<CloneDoc>, k: nat)
    requires k < |docs| && forall j :: 0 <= j < |docs| ==> docs[j].botId.Some? && docs[j].userId.Some?
    requires forall j :: k < j < |docs| ==> docs[j].botId != docs[k].botId
    ensures var m := Loaded(owners, docs);
            docs[k].botId.value in m && m[docs[k].botId.value] == docs[k].userId.value
    decreases |docs|
  {
    var b := docs[k].botId.value;
    var next := owners[docs[0].botId.value := docs[0].userId.value];
    if k == 0 {
      LoadedKeeps(next, docs[1..], b);
    } else {
      LoadedLastWins(next, docs[1..], k - 1);
    }
  }

  /** A bot no document names keeps its mirrored owner. */
  lemma {:induction false} LoadedKeeps(owners: map<int, int>, docs: seq<CloneDoc>, b: int)
    requires forall j :: 0 <= j < |docs| ==> docs[j].botId != Some(b)
    ensures var m := Loaded(owners, docs);
            (b in m <==> b in owners) && (b in owners ==> m[b] == owners[b])
    decreases |docs|
  {
    if docs != [] && !(docs[0].botId.Some? && docs[0].userId.None?) {
      var next := if docs[0].botId.None? then owners
                  else owners[docs[0].botId.value := docs[0].userId.value];
      LoadedKeeps(next, docs[1..], b);
    }
  }

  /** Every complete document of the scan agrees with the persisted map. */
  ghost predicate ScanAgrees(docs: seq<CloneDoc>, persisted: map<int, int>)
  {
    forall d :: d in docs && Complete(d) ==> d.botId.value in persisted && persisted[d.botId.value] == d.userId.value
  }

  class CloneOwners {
    /** CLONE_OWNERS: bot id to owner id. */
    var owners: map<int, int>
    /** The clone-owner collection, bot id to owner id. */
    var persisted: map<int, int>

    /** The mirror only holds what the collection holds. */
    ghost predicate Valid()
      reads this
    {
      forall b :: b in owners ==> b in persisted && owners[b] == persisted[b]
    }

    constructor (stored: map<int, int>)
      ensures Valid() && owners == map[] && persisted == stored
    {
      owners := map[];
      persisted := stored;
    }

    /** load_clone_owners over the scan `docs`. */
    method Load(docs: seq<CloneDoc>)
      requires Valid()
      modifies this
      ensures owners == Loaded(old(owners), docs)
      ensures persisted == old(persisted)
      ensures ScanAgrees(docs, persisted) ==> Valid()
    {
      var i := 0;
      while i < |docs|
        invariant 0 <= i <= |docs|
        invariant Loaded(old(owners), docs) == Loaded(owners, docs[i..])
        invariant persisted == old(persisted)
        invariant ScanAgrees(docs, persisted) ==> Valid()
      {
        var d := docs[i];
        assert docs[i..][1..] == docs[i + 1..];
        if d.botId.Some? {
          if d.userId.None? {
            return;
          }
          owners := owners[d.botId.value := d.userId.value];
        }
        i := i + 1;
      }
    }

    /** save_clone_owner; `upsertOk` is whether the upsert succeeded. */
    method Save(bot: int, user: int, upsertOk: bool)
      requires Valid()
      modifies this
      ensures Valid()
      ensures persisted == if upsertOk then old(persisted)[bot := user] else old(persisted)
      ensures owners == if upsertOk then old(owners)[bot := user] else old(owners)
    {
      if !upsertOk {
        return;
      }
      persisted := persisted[bot := user];
      owners := owners[bot := user];
    }

    /** delete_clone_owner; `deleteOk` is whether the delete succeeded. */
    method Delete(bot: int, deleteOk: bool)
      requires Valid()
      modifies this
      ensures Valid()
      ensures persisted == if deleteOk then old(persisted) - {bot} else old(persisted)
      ensures owners == if deleteOk then old(owners) - {bot} else old(owners)
      ensures bot !in old(owners) ==> owners == old(owners)
    {
      if !deleteOk {
        return;
      }
      persisted := persisted - {bot};
      owners := owners - {bot};
    }
  }
}
