/**
  The rogue-tracker detector of `boddos/safety/trackers.py`: an index of the Bluetooth devices seen so far, kept up to
  date scan by scan, against the log of every single sighting.
*/
module Trackers {
  import opened Wrappers

  const UNKNOWN: string := "unknown"

  /** The grid cell of a position; the grid itself is a parameter. */
  function LocBin(grid: (real, real) -> string, lat: Option<real>, lon: Option<real>): string {
    if lat.None? || lon.None? then UNKNOWN else grid(lat.value, lon.value)
  }

  /**
    An entry of a scan. An absent address or name reads as empty. `created` is the clock reading taken if the entry
    opens a track, which is a later one than the reading of the scan.
  */
  datatype Device = Device(mac: string, name: string, created: real)

  datatype Track = Track(mac: string, name: string, locations: set<string>, firstSeen: real, lastSeen: real, count: nat)

  /** An entry with an address, and the place and time of the scan that holds it. */
  datatype Sighting = Sighting(mac: string, name: string, loc: string, now: real, created: real)

  datatype Suspect = Suspect(mac: string, name: string, places: nat, span: real, sightings: nat)

  function Sightings(ble: seq<Device>, loc: string, now: real): seq<Sighting> {
    if ble == [] then []
    else
      var before, d := Sightings(ble[..|ble| - 1], loc, now), ble[|ble| - 1];
      if d.mac == "" then before else before + [Sighting(d.mac, d.name, loc, now, d.created)]
  }

  /** The sighting of an entry that has an address. */
  predicate IsEntry(d: Device, loc: string, now: real, s: Sighting) {
    d.mac != "" && s.mac == d.mac && s.name == d.name && s.loc == loc && s.now == now && s.created == d.created
  }

  /** A scan is logged entry by entry, without those that have no address, all with its place and time. */
  lemma {:induction false} SightingsInPlain(ble: seq<Device>, loc: string, now: real)
    ensures forall s :: s in Sightings(ble, loc, now) <==>
              exists i :: 0 <= i < |ble| && IsEntry(ble[i], loc, now, s)
  {
    if ble != [] {
      var init, d := ble[..|ble| - 1], ble[|ble| - 1];
      SightingsInPlain(init, loc, now);
      assert forall i :: 0 <= i < |init| ==> init[i] == ble[i];
      forall s | s in Sightings(ble, loc, now) ensures exists i :: 0 <= i < |ble| && IsEntry(ble[i], loc, now, s) {
        if s in Sightings(init, loc, now) {
          var i :| 0 <= i < |init| && IsEntry(init[i], loc, now, s);
          assert ble[i] == init[i];
        } else {
          assert ble[|ble| - 1] == d;
        }
      }
    }
  }

  /** A scan has a place when it has both coordinates. */
  lemma PlaceInPlain(grid: (real, real) -> string, lat: Option<real>, lon: Option<real>)
    ensures LocBin(grid, lat, lon) == if lat.Some? && lon.Some? then grid(lat.value, lon.value) else "unknown"
  {
  }

  // ------------------------------------------------------------------ recomputation from the log

  function Macs(log: seq<Sighting>): set<string> {
    set s | s in log :: s.mac
  }

  lemma MacsLast(log: seq<Sighting>, s: Sighting)
    ensures Macs(log + [s]) == Macs(log) + {s.mac}
  {
    forall t | t in log ensures t in log + [s] {
    }
    assert s in log + [s];
  }

  function Own(log: seq<Sighting>, mac: string): (own: seq<Sighting>)
    ensures own != [] <==> mac in Macs(log)
  {
    if log == [] then []
    else
      var before, s := log[..|log| - 1], log[|log| - 1];
      MacsLast(before, s);
      assert log == before + [s];
      if s.mac == mac then Own(before, mac) + [s] else Own(before, mac)
  }

  function Places(own: seq<Sighting>): set<string> {
    set s | s in own && s.loc != UNKNOWN :: s.loc
  }

  /** The last name that is not empty, if there is one. */
  function LastName(own: seq<Sighting>): string {
    if own == [] then ""
    else if own[|own| - 1].name != "" then own[|own| - 1].name
    else LastName(own[..|own| - 1])
  }

  /** What the whole log says about one address. */
  function Recompute(log: seq<Sighting>, mac: string): Track
    requires mac in Macs(log)
  {
    var own := Own(log, mac);
    Track(mac, LastName(own), Places(own), own[0].created, own[|own| - 1].now, |own|)
  }

  /** The dictionary holds, for every address in the log and no other, what the whole log says about it. */
  ghost predicate IsIndex(log: seq<Sighting>, tracks: map<string, Track>) {
    && (forall mac :: mac in tracks <==> mac in Macs(log))
    && (forall mac :: mac in tracks && mac in Macs(log) ==> tracks[mac] == Recompute(log, mac))
  }

  /** The index of the first sighting of an address. */
  function FirstAt(log: seq<Sighting>, mac: string): (k: nat)
    ensures k <= |log|
    ensures k < |log| ==> log[k].mac == mac
    ensures forall i :: 0 <= i < k ==> log[i].mac != mac
  {
    if log == [] then 0
    else
      var k := FirstAt(log[..|log| - 1], mac);
      if k < |log| - 1 || log[k].mac == mac then k else |log|
  }

  /** Addresses without repetition, each of them in the log, by first sighting. */
  ghost predicate ByFirstSighting(log: seq<Sighting>, order: seq<string>) {
    && (forall i :: 0 <= i < |order| ==> order[i] in Macs(log))
    && (forall mac :: mac in Macs(log) ==> mac in order)
    && (forall i, j :: 0 <= i < j < |order| ==> FirstAt(log, order[i]) < FirstAt(log, order[j]))
  }

  lemma OwnLast(log: seq<Sighting>, s: Sighting, mac: string)
    ensures Own(log + [s], mac) == if s.mac == mac then Own(log, mac) + [s] else Own(log, mac)
  {
    assert (log + [s])[..|log|] == log;
  }

  lemma PlacesLast(own: seq<Sighting>, s: Sighting)
    ensures Places(own + [s]) == if s.loc != UNKNOWN then Places(own) + {s.loc} else Places(own)
  {
    forall t | t in own ensures t in own + [s] {
    }
    assert s in own + [s];
  }

  lemma LastNameLast(own: seq<Sighting>, s: Sighting)
    ensures LastName(own + [s]) == if s.name != "" then s.name else LastName(own)
  {
    assert (own + [s])[..|own|] == own;
  }

  /** The track of `s.mac` after the sighting, from the one before it or a blank one. */
  function Updated(t: Track, s: Sighting): Track {
    Track(s.mac, if s.name != "" then s.name else t.name,
          if s.loc != UNKNOWN then t.locations + {s.loc} else t.locations, t.firstSeen, s.now, t.count + 1)
  }

  function Blank(s: Sighting): Track {
    Track("", "", {}, s.created, s.created, 0)
  }

  lemma RecomputeLast(log: seq<Sighting>, s: Sighting)
    ensures s.mac in Macs(log + [s])
    ensures Recompute(log + [s], s.mac) == Updated(if s.mac in Macs(log) then Recompute(log, s.mac) else Blank(s), s)
  {
    MacsLast(log, s);
    OwnLast(log, s, s.mac);
    PlacesLast(Own(log, s.mac), s);
    LastNameLast(Own(log, s.mac), s);
  }

  function Noted(tracks: map<string, Track>, s: Sighting): map<string, Track> {
    tracks[s.mac := Updated(if s.mac in tracks then tracks[s.mac] else Blank(s), s)]
  }

  lemma RecomputeOther(log: seq<Sighting>, s: Sighting, mac: string)
    requires mac in Macs(log) && mac != s.mac
    ensures mac in Macs(log + [s]) && Recompute(log + [s], mac) == Recompute(log, mac)
  {
    MacsLast(log, s);
    OwnLast(log, s, mac);
  }

  lemma IndexLast(log: seq<Sighting>, tracks: map<string, Track>, s: Sighting)
    requires IsIndex(log, tracks)
    ensures IsIndex(log + [s], Noted(tracks, s))
  {
    MacsLast(log, s);
    RecomputeLast(log, s);
    forall mac | mac in Macs(log) && mac != s.mac ensures Recompute(log + [s], mac) == tracks[mac] {
      RecomputeOther(log, s, mac);
    }
  }

  lemma FirstAtLast(log: seq<Sighting>, s: Sighting, mac: string)
    ensures FirstAt(log + [s], mac) == if mac in Macs(log) || s.mac == mac then FirstAt(log, mac) else |log| + 1
    ensures FirstAt(log, mac) < |log| <==> mac in Macs(log)
  {
    assert (log + [s])[..|log|] == log;
    var k := FirstAt(log, mac);
    assert k < |log| ==> log[k] in log;
    if mac in Macs(log) {
      var seen :| seen in log && seen.mac == mac;
    }
  }

  lemma OrderLast(log: seq<Sighting>, s: Sighting, order: seq<string>)
    requires ByFirstSighting(log, order)
    ensures ByFirstSighting(log + [s], if s.mac in Macs(log) then order else order + [s.mac])
  {
    MacsLast(log, s);
    forall mac ensures mac in Macs(log) + {s.mac} ==> FirstAt(log + [s], mac) == FirstAt(log, mac)
      ensures FirstAt(log, mac) < |log| <==> mac in Macs(log)
    {
      FirstAtLast(log, s, mac);
    }
  }

  // ------------------------------------------------------------------ suspects

  predicate IsFollowing(t: Track, threshold: int, minSpan: real) {
    |t.locations| >= threshold && t.lastSeen - t.firstSeen >= minSpan
  }

  function SuspectOf(t: Track): Suspect {
    Suspect(t.mac, t.name, |t.locations|, t.lastSeen - t.firstSeen, t.count)
  }

  /** An address that the log shows in enough places for long enough. */
  predicate Flagged(log: seq<Sighting>, threshold: int, minSpan: real, mac: string) {
    mac in Macs(log) && IsFollowing(Recompute(log, mac), threshold, minSpan)
  }

  predicate Listed(log: seq<Sighting>, threshold: int, minSpan: real, s: Suspect) {
    Flagged(log, threshold, minSpan, s.mac) && s == SuspectOf(Recompute(log, s.mac))
  }

  /** Enough known places, enough time from the opening of the track to the last sighting, and the numbers shown. */
  predicate InPlain(log: seq<Sighting>, threshold: int, minSpan: real, s: Suspect) {
    var own := Own(log, s.mac);
    && own != []
    && s.places == |set t | t in own && t.loc != "unknown" :: t.loc| && s.places >= threshold
    && s.span == own[|own| - 1].now - own[0].created && s.span >= minSpan
    && s.sightings == |own| && s.name == LastName(own)
  }

  lemma ListedInPlain(log: seq<Sighting>, threshold: int, minSpan: real, s: Suspect)
    ensures Listed(log, threshold, minSpan, s) <==> InPlain(log, threshold, minSpan, s)
  {
    if Own(log, s.mac) != [] {
      assert Places(Own(log, s.mac)) == set t | t in Own(log, s.mac) && t.loc != "unknown" :: t.loc;
    }
  }

  lemma AllListedInPlain(log: seq<Sighting>, threshold: int, minSpan: real)
    ensures forall s :: Listed(log, threshold, minSpan, s) <==> InPlain(log, threshold, minSpan, s)
  {
    forall s ensures Listed(log, threshold, minSpan, s) <==> InPlain(log, threshold, minSpan, s) {
      ListedInPlain(log, threshold, minSpan, s);
    }
  }

  /** The sort key is greater. */
  predicate Above(a: Suspect, b: Suspect) {
    a.places > b.places || (a.places == b.places && a.sightings > b.sightings)
  }

  /** More places, then more sightings, then the earlier first sighting. */
  predicate Outranks(log: seq<Sighting>, a: Suspect, b: Suspect) {
    Above(a, b) || (!Above(b, a) && FirstAt(log, a.mac) < FirstAt(log, b.mac))
  }

  ghost predicate Ranked(log: seq<Sighting>, list: seq<Suspect>) {
    forall i, j :: 0 <= i < j < |list| ==> Outranks(log, list[i], list[j])
  }

  /** The flagged addresses among these, in this order. */
  function Candidates(log: seq<Sighting>, order: seq<string>, threshold: int, minSpan: real): seq<Suspect> {
    if order == [] then []
    else
      var before, mac := Candidates(log, order[..|order| - 1], threshold, minSpan), order[|order| - 1];
      if Flagged(log, threshold, minSpan, mac) then before + [SuspectOf(Recompute(log, mac))] else before
  }

  lemma {:induction false} CandidatesInOrder(log: seq<Sighting>, order: seq<string>, threshold: int, minSpan: real)
    requires forall i, j :: 0 <= i < j < |order| ==> FirstAt(log, order[i]) < FirstAt(log, order[j])
    ensures var list := Candidates(log, order, threshold, minSpan);
            && (forall s :: s in list <==> s.mac in order && Listed(log, threshold, minSpan, s))
            && (forall i, j :: 0 <= i < j < |list| ==> FirstAt(log, list[i].mac) < FirstAt(log, list[j].mac))
  {
    if order != [] {
      var before, mac := order[..|order| - 1], order[|order| - 1];
      CandidatesInOrder(log, before, threshold, minSpan);
      assert order == before + [mac];
      var shorter := Candidates(log, before, threshold, minSpan);
      forall i | 0 <= i < |shorter| ensures FirstAt(log, shorter[i].mac) < FirstAt(log, mac) {
        assert shorter[i] in shorter;
        assert shorter[i].mac in before;
      }
    }
  }

  ghost predicate SameElements<T(!new)>(a: seq<T>, b: seq<T>) {
    forall x :: x in a <==> x in b
  }

  lemma SplicedIsRanked(log: seq<Sighting>, list: seq<Suspect>, p: nat, x: Suspect)
    requires p <= |list| && Ranked(log, list)
    requires forall i :: 0 <= i < p ==> Outranks(log, list[i], x)
    requires forall i :: p <= i < |list| ==> Outranks(log, x, list[i])
    ensures Ranked(log, list[..p] + [x] + list[p..])
  {
    var r := list[..p] + [x] + list[p..];
    forall i, j | 0 <= i < j < |r| ensures Outranks(log, r[i], r[j]) {
      var a, b := if i < p then i else i - 1, if j < p then j else j - 1;
      assert i != p ==> r[i] == list[a];
      assert j != p ==> r[j] == list[b];
    }
  }

  lemma SplicedHolds<T(!new)>(list: seq<T>, p: nat, x: T)
    requires p <= |list|
    ensures SameElements(list[..p] + [x] + list[p..], list + [x])
  {
    var front, back := list[..p], list[p..];
    assert list == front + back;
    forall y ensures y in front + [x] + back <==> y in list + [x] {
      assert y in list <==> y in front || y in back;
    }
  }

  /** Inserts `x` behind everything whose key is not below its own. */
  method Insert(list: seq<Suspect>, x: Suspect, ghost log: seq<Sighting>) returns (r: seq<Suspect>)
    requires Ranked(log, list) && forall y :: y in list ==> FirstAt(log, y.mac) < FirstAt(log, x.mac)
    ensures Ranked(log, r) && SameElements(r, list + [x])
  {
    var p := |list|;
    while p > 0 && Above(x, list[p - 1])
      invariant 0 <= p <= |list|
      invariant forall i :: p <= i < |list| ==> Above(x, list[i])
    {
      p := p - 1;
    }
    r := list[..p] + [x] + list[p..];
    forall i | 0 <= i < p ensures Outranks(log, list[i], x) {
      assert list[i] in list;
      assert i < p - 1 ==> Outranks(log, list[i], list[p - 1]);
    }
    SplicedIsRanked(log, list, p, x);
    SplicedHolds(list, p, x);
  }

  /** The stable sort, largest key first, of a list that is in the dictionary's order. */
  method Sort(list: seq<Suspect>, ghost log: seq<Sighting>) returns (r: seq<Suspect>)
    requires forall i, j :: 0 <= i < j < |list| ==> FirstAt(log, list[i].mac) < FirstAt(log, list[j].mac)
    ensures Ranked(log, r) && SameElements(r, list)
  {
    r := [];
    var i := 0;
    while i < |list|
      invariant 0 <= i <= |list|
      invariant Ranked(log, r) && SameElements(r, list[..i])
    {
      assert list[..i + 1] == list[..i] + [list[i]];
      r := Insert(r, list[i], log);
      i := i + 1;
    }
    assert list[..|list|] == list;
  }

  class TrackerDetector {
    const followThreshold: int
    const minSpan: real
    const grid: (real, real) -> string
    var tracks: map<string, Track>
    /** The dictionary's insertion order. */
    var order: seq<string>
    /** Every sighting so far. */
    ghost var log: seq<Sighting>

    ghost predicate Valid()
      reads this
    {
      IsIndex(log, tracks) && ByFirstSighting(log, order)
    }

    constructor (followThreshold: int, minSpan: real, grid: (real, real) -> string)
      ensures Valid() && log == []
      ensures this.followThreshold == followThreshold && this.minSpan == minSpan && this.grid == grid
    {
      this.followThreshold := followThreshold;
      this.minSpan := minSpan;
      this.grid := grid;
      tracks, order, log := map[], [], [];
    }

    /** One entry with an address. */
    method Note(d: Device, loc: string, now: real)
      requires Valid() && d.mac != ""
      modifies this
      ensures Valid() && log == old(log) + [Sighting(d.mac, d.name, loc, now, d.created)]
    {
      ghost var s := Sighting(d.mac, d.name, loc, now, d.created);
      ghost var before, first := tracks, order;
      var known := d.mac in tracks;
      var t := if known then tracks[d.mac] else Track("", "", {}, d.created, d.created, 0);
      t := t.(mac := d.mac, name := if d.name != "" then d.name else t.name);
      if loc != UNKNOWN {
        t := t.(locations := t.locations + {loc});
      }
      t := t.(lastSeen := now, count := t.count + 1);
      assert t == Updated(if s.mac in before then before[s.mac] else Blank(s), s);
      tracks := tracks[d.mac := t];
      order := if known then order else order + [d.mac];
      IndexLast(log, before, s);
      OrderLast(log, s, first);
      log := log + [s];
    }

    method Observe(ble: seq<Device>, lat: Option<real>, lon: Option<real>, now: real)
      requires Valid()
      modifies this
      ensures Valid() && log == old(log) + Sightings(ble, LocBin(grid, lat, lon), now)
    {
      var loc := LocBin(grid, lat, lon);
      var i := 0;
      while i < |ble|
        invariant 0 <= i <= |ble|
        invariant Valid() && log == old(log) + Sightings(ble[..i], loc, now)
      {
        assert ble[..i + 1][..i] == ble[..i];
        if ble[i].mac != "" {
          Note(ble[i], loc, now);
        }
        i := i + 1;
      }
      assert ble[..|ble|] == ble;
    }

    /** Lists exactly the flagged addresses, as the whole log describes them, in rank order. */
    method Suspects() returns (out: seq<Suspect>)
      requires Valid()
      ensures forall s :: s in out <==> Listed(log, followThreshold, minSpan, s)
      ensures Ranked(log, out)
      ensures forall s :: s in out <==> InPlain(log, followThreshold, minSpan, s)
      ensures forall i, j :: 0 <= i < j < |out| ==>
                || out[i].places > out[j].places
                || (out[i].places == out[j].places && out[i].sightings > out[j].sightings)
                || (out[i].places == out[j].places && out[i].sightings == out[j].sightings
                    && FirstAt(log, out[i].mac) < FirstAt(log, out[j].mac))
    {
      out := [];
      var i := 0;
      while i < |order|
        invariant 0 <= i <= |order|
        invariant out == Candidates(log, order[..i], followThreshold, minSpan)
      {
        assert order[..i + 1][..i] == order[..i];
        var t := tracks[order[i]];
        if IsFollowing(t, followThreshold, minSpan) {
          out := out + [SuspectOf(t)];
        }
        i := i + 1;
      }
      assert order[..|order|] == order;
      CandidatesInOrder(log, order, followThreshold, minSpan);
      out := Sort(out, log);
      AllListedInPlain(log, followThreshold, minSpan);
    }
  }

  // ------------------------------------------------------------------ properties

  lemma {:induction false} OwnGrows(log: seq<Sighting>, later: seq<Sighting>, mac: string)
    ensures Own(log, mac) <= Own(log + later, mac)
  {
    if later == [] {
      assert log + later == log;
    } else {
      var n := |later| - 1;
      var shorter := log + later[..n];
      assert log + later == shorter + [later[n]];
      OwnGrows(log, later[..n], mac);
      OwnLast(shorter, later[n], mac);
    }
  }

  /**
    However the log goes on, a flagged address is unflagged exactly when its last sighting is read off a clock that is
    behind the start of its track plus the span: places are never lost.
  */
  lemma UnflaggedByClock(log: seq<Sighting>, later: seq<Sighting>, threshold: int, minSpan: real, mac: string)
    requires Flagged(log, threshold, minSpan, mac)
    ensures mac in Macs(log + later)
    ensures Flagged(log + later, threshold, minSpan, mac) <==>
            Recompute(log + later, mac).lastSeen >= Recompute(log, mac).firstSeen + minSpan
  {
    OwnGrows(log, later, mac);
    var own, grown := Own(log, mac), Own(log + later, mac);
    assert grown[0] == own[0];
    forall s | s in own ensures s in grown {
    }
    SubsetSize(Places(own), Places(grown));
  }

  ghost predicate ClockIsMonotone(log: seq<Sighting>) {
    forall i, j :: 0 <= i < j < |log| ==> log[i].now <= log[j].now
  }

  lemma {:induction false} OwnOfOne(log: seq<Sighting>, mac: string)
    ensures forall s :: s in Own(log, mac) ==> s in log
    ensures ClockIsMonotone(log) ==> ClockIsMonotone(Own(log, mac))
  {
    if log != [] {
      var before, s := log[..|log| - 1], log[|log| - 1];
      OwnOfOne(before, mac);
      assert log == before + [s];
      OwnLast(before, s, mac);
      if ClockIsMonotone(log) {
        forall t | t in Own(before, mac) ensures t.now <= s.now {
          assert t in before;
        }
      }
    }
  }

  /** Under a monotone clock a flagged address stays flagged. */
  lemma FlaggedStays(log: seq<Sighting>, later: seq<Sighting>, threshold: int, minSpan: real, mac: string)
    requires Flagged(log, threshold, minSpan, mac) && ClockIsMonotone(log + later)
    ensures Flagged(log + later, threshold, minSpan, mac)
  {
    UnflaggedByClock(log, later, threshold, minSpan, mac);
    OwnGrows(log, later, mac);
    OwnOfOne(log + later, mac);
  }

  /** Contents and rank order leave no choice: there is one list of suspects. */
  lemma {:induction false} ListIsDetermined(log: seq<Sighting>, a: seq<Suspect>, b: seq<Suspect>)
    requires Ranked(log, a) && Ranked(log, b) && SameElements(a, b)
    ensures a == b
  {
    assert a != [] ==> a[0] in a;
    assert b != [] ==> b[0] in b;
    if a != [] && b != [] {
      assert a[0] in b && b[0] in a;
      assert a[0] == b[0];
      forall x ensures x in a[1..] <==> x in b[1..] {
        assert x in a <==> x in b;
      }
      ListIsDetermined(log, a[1..], b[1..]);
    }
  }
}
