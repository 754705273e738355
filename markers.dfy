/**
 * The meteor list the page shows and the markers it draws on the map.
 *
 * When the "hazardous only" box is ticked the list keeps only the objects
 * flagged as potentially hazardous; otherwise it is the fetched list as is.
 * The map draws at most 200 markers, the first ones of that list, each placed
 * by the hash of its id; the same 200 positions are the ones the map zooms to.
 */
module Markers {
  import opened Placement

  /** The map never draws more than this many markers. */
  const MaxMarkers: nat := 200

  datatype Option<T> = None | Some(value: T)

  /** A near-Earth object from the feed, reduced to what the list and the map use. */
  datatype Meteor = Meteor(id: seq<CodeUnit>, name: string, hazardous: bool)

  /** A marker on the map: the meteor it stands for and where it is drawn. */
  datatype Marker = Marker(meteor: Meteor, position: LatLng)

  /** `s` appears in `t` in the same order, possibly with other elements between. */
  predicate IsSubsequence<T(==)>(s: seq<T>, t: seq<T>)
    decreases |t|
  {
    s == [] ||
    (t != [] && ((s[0] == t[0] && IsSubsequence(s[1..], t[1..])) || IsSubsequence(s, t[1..])))
  }

  /** The meteors flagged as potentially hazardous, in their original order. */
  function Hazardous(meteors: seq<Meteor>): (r: seq<Meteor>)
    ensures forall i :: 0 <= i < |r| ==> r[i].hazardous
    ensures forall m :: m in r <==> m in meteors && m.hazardous
    ensures forall m :: multiset(r)[m] == if m.hazardous then multiset(meteors)[m] else 0
    ensures IsSubsequence(r, meteors)
    decreases |meteors|
  {
    if meteors == [] then []
    else
      assert meteors == [meteors[0]] + meteors[1..];
      if meteors[0].hazardous then [meteors[0]] + Hazardous(meteors[1..])
      else Hazardous(meteors[1..])
  }

  /**
   * The list the page works with: the hazardous meteors when the box is
   * ticked, every meteor otherwise.
   */
  function Filtered(meteors: seq<Meteor>, hazardousOnly: bool): (r: seq<Meteor>)
    ensures !hazardousOnly ==> r == meteors
    ensures hazardousOnly ==> r == Hazardous(meteors)
    ensures hazardousOnly ==> forall i :: 0 <= i < |r| ==> r[i].hazardous
    ensures forall m :: m in r <==> m in meteors && (hazardousOnly ==> m.hazardous)
    ensures IsSubsequence(r, meteors)
  {
    PrefixIsSubsequence(meteors, |meteors|);
    assert meteors[..|meteors|] == meteors;
    if hazardousOnly then Hazardous(meteors) else meteors
  }

  /** The first min(200, |list|) entries of `list`, as slice(0, 200) gives them. */
  function Capped<T>(list: seq<T>): (r: seq<T>)
    ensures |r| <= MaxMarkers
    ensures |r| == if |list| < MaxMarkers then |list| else MaxMarkers
    ensures forall i :: 0 <= i < |r| ==> r[i] == list[i]
  {
    if |list| <= MaxMarkers then list else list[..MaxMarkers]
  }

  /** Positions of a list of meteors, in order. */
  function Positions(meteors: seq<Meteor>): (ps: seq<LatLng>)
    ensures |ps| == |meteors|
    ensures forall i :: 0 <= i < |ps| ==> ps[i] == LatLngOf(meteors[i].id) && InRange(ps[i])
  {
    seq(|meteors|, i requires 0 <= i < |meteors| => LatLngOf(meteors[i].id))
  }

  /** The markers drawn on the map: the capped list, each meteor placed by its id. */
  function MapMarkers(meteors: seq<Meteor>, hazardousOnly: bool): (ms: seq<Marker>)
    ensures |ms| <= MaxMarkers
    ensures |ms| ==
      if |Filtered(meteors, hazardousOnly)| < MaxMarkers then |Filtered(meteors, hazardousOnly)| else MaxMarkers
    ensures forall i :: 0 <= i < |ms| ==>
      ms[i].meteor == Filtered(meteors, hazardousOnly)[i] && ms[i].position == LatLngOf(ms[i].meteor.id)
  {
    var shown := Capped(Filtered(meteors, hazardousOnly));
    seq(|shown|, i requires 0 <= i < |shown| => Marker(shown[i], LatLngOf(shown[i].id)))
  }

  /**
   * The positions the map is fitted to when the meteor list changes: none
   * when the list is empty (the effect returns early), otherwise the positions
   * of its first 200 entries.
   */
  function BoundsPositions(meteors: seq<Meteor>, hazardousOnly: bool): (o: Option<seq<LatLng>>)
    ensures o.None? <==> Filtered(meteors, hazardousOnly) == []
    ensures o.Some? ==> 1 <= |o.value| <= MaxMarkers
    ensures o.Some? ==> forall i :: 0 <= i < |o.value| ==> InRange(o.value[i])
    ensures o.Some? ==>
      |o.value| == if |Filtered(meteors, hazardousOnly)| < MaxMarkers then |Filtered(meteors, hazardousOnly)| else MaxMarkers
    ensures o.Some? ==> forall i :: 0 <= i < |o.value| ==>
      o.value[i] == LatLngOf(Filtered(meteors, hazardousOnly)[i].id)
  {
    var list := Filtered(meteors, hazardousOnly);
    if |list| == 0 then None else Some(Positions(Capped(list)))
  }

  /** The meteors a sequence of markers stands for. */
  function MeteorsOf(ms: seq<Marker>): (r: seq<Meteor>)
    ensures |r| == |ms|
    ensures forall i :: 0 <= i < |r| ==> r[i] == ms[i].meteor
  {
    seq(|ms|, i requires 0 <= i < |ms| => ms[i].meteor)
  }

  /** Where a sequence of markers is drawn, in order. */
  function MarkerPositions(ms: seq<Marker>): (ps: seq<LatLng>)
    ensures |ps| == |ms|
    ensures forall i :: 0 <= i < |ps| ==> ps[i] == ms[i].position
  {
    seq(|ms|, i requires 0 <= i < |ms| => ms[i].position)
  }

  /** A subsequence of a subsequence is a subsequence. */
  lemma {:induction false} SubsequenceTransitive<T>(a: seq<T>, b: seq<T>, c: seq<T>)
    requires IsSubsequence(a, b) && IsSubsequence(b, c)
    ensures IsSubsequence(a, c)
    decreases |c|
  {
    if a != [] {
      assert b != [] && c != [];
      if b[0] == c[0] && IsSubsequence(b[1..], c[1..]) {
        if a[0] == b[0] && IsSubsequence(a[1..], b[1..]) {
          SubsequenceTransitive(a[1..], b[1..], c[1..]);
        } else {
          SubsequenceTransitive(a, b[1..], c[1..]);
        }
      } else {
        SubsequenceTransitive(a, b, c[1..]);
      }
    }
  }

  /** A prefix of a sequence is a subsequence of it. */
  lemma {:induction false} PrefixIsSubsequence<T>(s: seq<T>, n: nat)
    requires n <= |s|
    ensures IsSubsequence(s[..n], s)
    decreases n
  {
    if n > 0 {
      assert s[..n][1..] == s[1..][..n - 1];
      PrefixIsSubsequence(s[1..], n - 1);
    }
  }

  /**
   * An in-order selection of hazardous meteors is never longer than the
   * filter's output.
   */
  lemma {:induction false} HazardousSelectionBound(r: seq<Meteor>, meteors: seq<Meteor>)
    requires IsSubsequence(r, meteors)
    requires forall i :: 0 <= i < |r| ==> r[i].hazardous
    ensures |r| <= |Hazardous(meteors)|
    decreases |meteors|
  {
    if r != [] {
      if r[0] == meteors[0] && IsSubsequence(r[1..], meteors[1..]) {
        HazardousSelectionBound(r[1..], meteors[1..]);
      } else {
        HazardousSelectionBound(r, meteors[1..]);
      }
    }
  }

  /**
   * The filter is the only in-order selection of hazardous meteors of its
   * length: among order-preserving selections that keep only hazardous
   * meteors, it is the one that keeps them all.
   */
  lemma {:induction false} HazardousUnique(r: seq<Meteor>, meteors: seq<Meteor>)
    requires IsSubsequence(r, meteors)
    requires forall i :: 0 <= i < |r| ==> r[i].hazardous
    requires |r| == |Hazardous(meteors)|
    ensures r == Hazardous(meteors)
    decreases |meteors|
  {
    if r != [] {
      if r[0] == meteors[0] && IsSubsequence(r[1..], meteors[1..]) {
        HazardousUnique(r[1..], meteors[1..]);
        assert r == [r[0]] + r[1..];
      } else {
        HazardousSelectionBound(r, meteors[1..]);
        HazardousUnique(r, meteors[1..]);
      }
    }
  }

  /**
   * The filter is characterised without reference to how it is computed: an
   * order-preserving selection that keeps only hazardous meteors, and every
   * hazardous one as often as it occurs, is the filter's output.
   */
  lemma FilterCharacterised(r: seq<Meteor>, meteors: seq<Meteor>)
    requires IsSubsequence(r, meteors)
    requires forall i :: 0 <= i < |r| ==> r[i].hazardous
    requires forall m: Meteor :: m.hazardous ==> multiset(r)[m] == multiset(meteors)[m]
    ensures r == Hazardous(meteors)
  {
    var kept := Hazardous(meteors);
    forall m: Meteor ensures multiset(r)[m] == multiset(kept)[m] {
      if !m.hazardous {
        assert m !in r;
      }
    }
    assert multiset(r) == multiset(kept);
    assert |r| == |multiset(r)| == |multiset(kept)| == |kept|;
    HazardousUnique(r, meteors);
  }

  /**
   * Without a filter every fetched meteor gets a marker as long as there are
   * at most 200 of them; with it, every hazardous one does, as long as at most
   * 200 are hazardous.
   */
  lemma MarkersComplete(meteors: seq<Meteor>, hazardousOnly: bool, m: Meteor)
    requires |Filtered(meteors, hazardousOnly)| <= MaxMarkers
    requires m in meteors && (hazardousOnly ==> m.hazardous)
    ensures m in MeteorsOf(MapMarkers(meteors, hazardousOnly))
  {
  }

  /**
   * The markers stand for meteors of the fetched list, in the list's order;
   * with the filter on they are all hazardous.
   */
  lemma MarkersInOrder(meteors: seq<Meteor>, hazardousOnly: bool)
    ensures IsSubsequence(MeteorsOf(MapMarkers(meteors, hazardousOnly)), meteors)
    ensures hazardousOnly ==> forall m :: m in MeteorsOf(MapMarkers(meteors, hazardousOnly)) ==> m.hazardous
  {
    var list := Filtered(meteors, hazardousOnly);
    var shown := MeteorsOf(MapMarkers(meteors, hazardousOnly));
    assert shown == list[..|shown|];
    PrefixIsSubsequence(list, |shown|);
    SubsequenceTransitive(shown, list, meteors);
  }

  /** The map is fitted to exactly the positions of the markers it draws. */
  lemma BoundsMatchMarkers(meteors: seq<Meteor>, hazardousOnly: bool)
    requires Filtered(meteors, hazardousOnly) != []
    ensures BoundsPositions(meteors, hazardousOnly) == Some(MarkerPositions(MapMarkers(meteors, hazardousOnly)))
  {
    var bounds := BoundsPositions(meteors, hazardousOnly).value;
    var drawn := MarkerPositions(MapMarkers(meteors, hazardousOnly));
    var shown := Capped(Filtered(meteors, hazardousOnly));
    assert |bounds| == |shown| == |drawn|;
    assert forall i :: 0 <= i < |drawn| ==> bounds[i] == drawn[i];
    assert bounds == drawn;
  }

  /** With at most 200 meteors in the list, every one of them is drawn. */
  lemma ShortListUncapped<T>(list: seq<T>)
    requires |list| <= MaxMarkers
    ensures Capped(list) == list
  {
  }
}
