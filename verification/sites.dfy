/** The site table helpers of the desktop back end: the search of sites by name
    (`SiteTable::search`) and the take-off and landing site detection
    (`SiteTable::site_detection`). The table's rows are a parameter. */
module Sites {
  import opened Common
  import opened Text
  import opened Geo

  /** A row of the `sites` table. */
  datatype Site = Site(siteId: nat, name: string, lat: real, long: real, alt: nat, info: string)
  {
    function Pos(): Position {
      Position(lat, long)
    }
  }

  /** A site is detected within this many metres of a fix. */
  const DISTANCE_DETECTION: real := 200.0

  // ---------------------------------------------------------------------------
  // Search

  /** The site's name contains the query, ASCII letters compared without case. */
  predicate Matches(s: Site, query: string) {
    Contains(Lower(s.name), Lower(query))
  }

  /** `SiteTable::search`: the ids of the matching sites, in table order. */
  function Search(sites: seq<Site>, query: string): (ids: seq<nat>)
    ensures |ids| <= |sites|
    decreases |sites|
  {
    if sites == [] then []
    else
      var rest := Search(sites[..|sites| - 1], query);
      if Matches(sites[|sites| - 1], query) then rest + [sites[|sites| - 1].siteId] else rest
  }

  /** An id is found exactly when a site with that id matches. */
  lemma {:induction false} SearchFinds(sites: seq<Site>, query: string, id: nat)
    ensures id in Search(sites, query) <==> exists k :: 0 <= k < |sites| && sites[k].siteId == id && Matches(sites[k], query)
    decreases |sites|
  {
    if sites != [] {
      var pre := sites[..|sites| - 1];
      SearchFinds(pre, query, id);
      if exists k :: 0 <= k < |pre| && pre[k].siteId == id && Matches(pre[k], query) {
        var k :| 0 <= k < |pre| && pre[k].siteId == id && Matches(pre[k], query);
        assert sites[k] == pre[k];
      }
      if exists k :: 0 <= k < |sites| && sites[k].siteId == id && Matches(sites[k], query) {
        var k :| 0 <= k < |sites| && sites[k].siteId == id && Matches(sites[k], query);
        if k < |pre| {
          assert pre[k] == sites[k];
        }
      }
    }
  }

  lemma LowerIdempotent(s: string)
    ensures Lower(Lower(s)) == Lower(s)
  {
  }

  /** The search ignores the case of the query. */
  lemma SearchIgnoresCase(sites: seq<Site>, query: string)
    ensures Search(sites, Lower(query)) == Search(sites, query)
  {
    LowerIdempotent(query);
  }

  /** The empty query finds every site, in order. */
  lemma {:induction false} SearchEmpty(sites: seq<Site>)
    ensures Search(sites, "") == seq(|sites|, k requires 0 <= k < |sites| => sites[k].siteId)
    decreases |sites|
  {
    if sites != [] {
      var pre := sites[..|sites| - 1];
      SearchEmpty(pre);
      assert OccursAt(Lower(sites[|sites| - 1].name), Lower(""), 0);
    }
  }

  // ---------------------------------------------------------------------------
  // Site detection

  /** The site lies strictly within the detection distance of `p`. */
  predicate Near(hav: Haversine, p: Position, s: Site) {
    hav(p, s.Pos()) < DISTANCE_DETECTION
  }

  /** The last site of `sites` near `p`. */
  function LastNear(hav: Haversine, sites: seq<Site>, p: Position): (r: Option<Site>)
    ensures r.Some? <==> exists k :: 0 <= k < |sites| && Near(hav, p, sites[k])
    ensures r.Some? ==> exists k :: 0 <= k < |sites| && sites[k] == r.value && Near(hav, p, r.value)
                                      && forall j :: k < j < |sites| ==> !Near(hav, p, sites[j])
    decreases |sites|
  {
    if sites == [] then None
    else if Near(hav, p, sites[|sites| - 1]) then Some(sites[|sites| - 1])
    else
      var pre := sites[..|sites| - 1];
      var r := LastNear(hav, pre, p);
      assert forall k :: 0 <= k < |pre| ==> pre[k] == sites[k];
      r
  }

  /** The detector's loop from site `i` on, with the sites found so far; a
      later site overwrites an earlier one, and the loop stops as soon as both
      a take-off and a landing site have been found. */
  function DetectFrom(hav: Haversine, sites: seq<Site>, takeoff: Position, landing: Position, i: nat,
                      found: (Option<Site>, Option<Site>)): (Option<Site>, Option<Site>)
    requires i <= |sites|
    decreases |sites| - i
  {
    if i == |sites| then found
    else
      var s := sites[i];
      var t := if Near(hav, takeoff, s) then Some(s) else found.0;
      var l := if Near(hav, landing, s) then Some(s) else found.1;
      if t.Some? && l.Some? then (t, l)
      else DetectFrom(hav, sites, takeoff, landing, i + 1, (t, l))
  }

  /** `SiteTable::site_detection`. */
  function SiteDetection(hav: Haversine, sites: seq<Site>, takeoff: Position, landing: Position): (Option<Site>, Option<Site>) {
    DetectFrom(hav, sites, takeoff, landing, 0, (None, None))
  }

  /** Both a take-off and a landing site are among the first `c` sites. */
  predicate BothFound(hav: Haversine, sites: seq<Site>, takeoff: Position, landing: Position, c: nat)
    requires c <= |sites|
  {
    LastNear(hav, sites[..c], takeoff).Some? && LastNear(hav, sites[..c], landing).Some?
  }

  /** How many sites the detector reads: up to the first site after which both
      have been found, or all of them. */
  function Cut(hav: Haversine, sites: seq<Site>, takeoff: Position, landing: Position, c: nat): (n: nat)
    requires c <= |sites|
    ensures c <= n <= |sites|
    decreases |sites| - c
  {
    if c == |sites| || BothFound(hav, sites, takeoff, landing, c) then c
    else Cut(hav, sites, takeoff, landing, c + 1)
  }

  lemma LastNearSnoc(hav: Haversine, sites: seq<Site>, i: nat, p: Position)
    requires i < |sites|
    ensures LastNear(hav, sites[..i + 1], p) == if Near(hav, p, sites[i]) then Some(sites[i]) else LastNear(hav, sites[..i], p)
  {
    assert sites[..i + 1][..i] == sites[..i];
  }

  /** The loop from `i`, having found what the first `i` sites hold, finds
      what the sites up to the cut hold. */
  lemma {:induction false} DetectFromCut(hav: Haversine, sites: seq<Site>, takeoff: Position, landing: Position, i: nat)
    requires i <= |sites|
    requires !BothFound(hav, sites, takeoff, landing, i)
    ensures var c := Cut(hav, sites, takeoff, landing, i);
      DetectFrom(hav, sites, takeoff, landing, i, (LastNear(hav, sites[..i], takeoff), LastNear(hav, sites[..i], landing)))
        == (LastNear(hav, sites[..c], takeoff), LastNear(hav, sites[..c], landing))
    decreases |sites| - i
  {
    if i < |sites| {
      LastNearSnoc(hav, sites, i, takeoff);
      LastNearSnoc(hav, sites, i, landing);
      if !BothFound(hav, sites, takeoff, landing, i + 1) {
        DetectFromCut(hav, sites, takeoff, landing, i + 1);
      }
    }
  }

  /** The detector reports the last site near the take-off and the last site
      near the landing among the sites it reads before stopping. */
  lemma SiteDetectionSpec(hav: Haversine, sites: seq<Site>, takeoff: Position, landing: Position)
    ensures var c := Cut(hav, sites, takeoff, landing, 0);
      SiteDetection(hav, sites, takeoff, landing) == (LastNear(hav, sites[..c], takeoff), LastNear(hav, sites[..c], landing))
  {
    assert sites[..0] == [];
    DetectFromCut(hav, sites, takeoff, landing, 0);
  }

  /** The reading stops early only once both sites have been found. */
  lemma {:induction false} CutStops(hav: Haversine, sites: seq<Site>, takeoff: Position, landing: Position, c: nat)
    requires c <= |sites|
    ensures var n := Cut(hav, sites, takeoff, landing, c);
      n < |sites| ==> BothFound(hav, sites, takeoff, landing, n)
    decreases |sites| - c
  {
    if !(c == |sites| || BothFound(hav, sites, takeoff, landing, c)) {
      CutStops(hav, sites, takeoff, landing, c + 1);
    }
  }

  /** A take-off site is reported exactly when some site lies near the
      take-off, and it is such a site; likewise for the landing. */
  lemma SiteDetectionFinds(hav: Haversine, sites: seq<Site>, takeoff: Position, landing: Position)
    ensures var r := SiteDetection(hav, sites, takeoff, landing);
      && (r.0.Some? <==> exists k :: 0 <= k < |sites| && Near(hav, takeoff, sites[k]))
      && (r.1.Some? <==> exists k :: 0 <= k < |sites| && Near(hav, landing, sites[k]))
      && (r.0.Some? ==> r.0.value in sites && Near(hav, takeoff, r.0.value))
      && (r.1.Some? ==> r.1.value in sites && Near(hav, landing, r.1.value))
  {
    var c := Cut(hav, sites, takeoff, landing, 0);
    SiteDetectionSpec(hav, sites, takeoff, landing);
    CutStops(hav, sites, takeoff, landing, 0);
    var pre := sites[..c];
    assert forall k :: 0 <= k < |pre| ==> pre[k] == sites[k];
    if c == |sites| {
      assert pre == sites;
    }
  }

  /** When no site lies near the landing, nothing stops the loop early: the
      take-off site is the last site of the table near the take-off. */
  lemma NoLandingSite(hav: Haversine, sites: seq<Site>, takeoff: Position, landing: Position)
    requires forall k :: 0 <= k < |sites| ==> !Near(hav, landing, sites[k])
    ensures SiteDetection(hav, sites, takeoff, landing) == (LastNear(hav, sites, takeoff), None)
  {
    SiteDetectionSpec(hav, sites, takeoff, landing);
    CutStops(hav, sites, takeoff, landing, 0);
    var c := Cut(hav, sites, takeoff, landing, 0);
    forall k | 0 <= k < c ensures !Near(hav, landing, sites[..c][k]) {
      assert sites[..c][k] == sites[k];
    }
    assert sites[..|sites|] == sites;
  }
}
