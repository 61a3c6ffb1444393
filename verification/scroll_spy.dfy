/** The navigation bar's scroll spy (`Navbar`): on every scroll the section
    under a reference point 100 pixels below the top of the viewport becomes
    the active one, the bar turns opaque past 50 pixels, and a menu click
    scrolls to a section leaving 80 pixels for the fixed bar. The document's
    sections are given as their ids and measured boxes, in document order. */
module ScrollSpy {
  import opened Wrappers

  datatype SectionBox = SectionBox(id: string, top: int, height: int)

  /** The active section before any scroll. */
  const InitialActive: string := "home"

  /** How far below the top of the viewport the reference point lies. */
  const ReferenceOffset: int := 100

  /** The scroll offset past which the bar is drawn opaque. */
  const ScrolledThreshold: int := 50

  /** The room left above a section scrolled to, for the fixed bar. */
  const HeaderOffset: int := 80

  /** The section's box holds the reference point: top edge included,
      bottom edge excluded. */
  predicate Holds(s: SectionBox, point: int) {
    s.top <= point < s.top + s.height
  }

  /** The `forEach` over the sections: each section holding the point makes
      its id the active one, so the last such section in document order
      wins, and with none the active section is kept. */
  function ActiveAfter(sections: seq<SectionBox>, point: int, active: string): (r: string)
    ensures (forall i :: 0 <= i < |sections| ==> !Holds(sections[i], point)) ==> r == active
    decreases |sections|
  {
    if |sections| == 0 then active
    else
      var s := sections[|sections| - 1];
      if Holds(s, point) then s.id else ActiveAfter(sections[..|sections| - 1], point, active)
  }

  /** The last position whose section holds the point, if any. */
  predicate LastHolder(sections: seq<SectionBox>, point: int, k: int) {
    0 <= k < |sections| && Holds(sections[k], point)
    && forall j :: k < j < |sections| ==> !Holds(sections[j], point)
  }

  /** With a section holding the point, the active id is the id of the
      last one. */
  lemma {:induction false} ActiveIsLastHolder(sections: seq<SectionBox>, point: int, active: string, k: int)
    requires LastHolder(sections, point, k)
    ensures ActiveAfter(sections, point, active) == sections[k].id
    decreases |sections|
  {
    var n := |sections| - 1;
    if k < n {
      var init := sections[..n];
      assert !Holds(sections[n], point);
      assert LastHolder(init, point, k) by {
        forall j | k < j < |init|
          ensures !Holds(init[j], point)
        {
          assert init[j] == sections[j];
        }
      }
      ActiveIsLastHolder(init, point, active, k);
    }
  }

  /** The scroll handler's loop, front to back as the source runs it: the
      result is the id of the last section holding the point, or the
      previous active id when none does. */
  method ActiveSection(sections: seq<SectionBox>, scrollY: int, active: string) returns (r: string)
    ensures r == ActiveAfter(sections, scrollY + ReferenceOffset, active)
    ensures forall k :: LastHolder(sections, scrollY + ReferenceOffset, k) ==> r == sections[k].id
    ensures (forall i :: 0 <= i < |sections| ==> !Holds(sections[i], scrollY + ReferenceOffset)) ==> r == active
  {
    var point := scrollY + ReferenceOffset;
    r := active;
    var i := 0;
    while i < |sections|
      invariant 0 <= i <= |sections|
      invariant r == ActiveAfter(sections[..i], point, active)
    {
      assert sections[..i + 1][..i] == sections[..i];
      if Holds(sections[i], point) {
        r := sections[i].id;
      }
      i := i + 1;
    }
    assert sections[..|sections|] == sections;
    forall k | LastHolder(sections, point, k)
      ensures r == sections[k].id
    {
      ActiveIsLastHolder(sections, point, active, k);
    }
  }

  /** The bar's state. */
  datatype NavState = NavState(active: string, scrolled: bool)

  const InitialNav: NavState := NavState(InitialActive, false)

  /** One scroll event. */
  function OnScroll(st: NavState, sections: seq<SectionBox>, scrollY: int): (r: NavState)
    ensures r.scrolled <==> scrollY > ScrolledThreshold
  {
    NavState(ActiveAfter(sections, scrollY + ReferenceOffset, st.active), scrollY > ScrolledThreshold)
  }

  /** The opaque flag depends on the last scroll offset alone, and the
      active section depends on the previous one only when no section holds
      the reference point. */
  lemma OnScrollFacts(a: NavState, b: NavState, sections: seq<SectionBox>, scrollY: int)
    ensures OnScroll(a, sections, scrollY).scrolled == OnScroll(b, sections, scrollY).scrolled
    ensures (exists i :: 0 <= i < |sections| && Holds(sections[i], scrollY + ReferenceOffset)) ==>
      OnScroll(a, sections, scrollY).active == OnScroll(b, sections, scrollY).active
  {
    var point := scrollY + ReferenceOffset;
    if exists i :: 0 <= i < |sections| && Holds(sections[i], point) {
      var i :| 0 <= i < |sections| && Holds(sections[i], point);
      SomeHolderHasLast(sections, point, i);
      var k :| LastHolder(sections, point, k);
      ActiveIsLastHolder(sections, point, a.active, k);
      ActiveIsLastHolder(sections, point, b.active, k);
    }
  }

  /** Whenever some section holds the point there is a last one. */
  lemma {:induction false} SomeHolderHasLast(sections: seq<SectionBox>, point: int, i: int)
    requires 0 <= i < |sections| && Holds(sections[i], point)
    ensures exists k :: LastHolder(sections, point, k)
    decreases |sections| - i
  {
    if exists j :: i < j < |sections| && Holds(sections[j], point) {
      var j :| i < j < |sections| && Holds(sections[j], point);
      SomeHolderHasLast(sections, point, j);
    } else {
      assert LastHolder(sections, point, i);
    }
  }

  /** `scrollToSection(id)`: the first section with the id in document
      order is scrolled to 80 pixels above its top; without one nothing
      happens. */
  function ScrollTarget(sections: seq<SectionBox>, id: string): (r: Option<int>)
    ensures r.None? <==> forall i :: 0 <= i < |sections| ==> sections[i].id != id
    ensures r.Some? ==> exists i :: (0 <= i < |sections| && sections[i].id == id
      && r.value == sections[i].top - HeaderOffset
      && forall j :: 0 <= j < i ==> sections[j].id != id)
    decreases |sections|
  {
    if |sections| == 0 then None
    else if sections[0].id == id then Some(sections[0].top - HeaderOffset)
    else
      var r := ScrollTarget(sections[1..], id);
      if r.Some? then
        var i :| 0 <= i < |sections[1..]| && sections[1..][i].id == id
          && r.value == sections[1..][i].top - HeaderOffset
          && forall j :: 0 <= j < i ==> sections[1..][j].id != id;
        assert sections[i + 1] == sections[1..][i];
        r
      else r
  }

  /** Scrolling to a section puts its top at the reference point's
      distance minus the bar: after the scroll, the reference point lies
      20 pixels into the section, so a tall enough section becomes the
      active one when the page can scroll that far. The browser clamps a
      scroll to the range 0 to `maxScroll` (the page height less the
      viewport), so the target must lie within it. */
  lemma ScrollThenSpy(sections: seq<SectionBox>, id: string, k: int, maxScroll: int)
    requires 0 <= k < |sections| && sections[k].id == id
    requires 0 <= sections[k].top - HeaderOffset <= maxScroll
    requires forall j :: 0 <= j < k ==> sections[j].id != id
    requires sections[k].height > ReferenceOffset - HeaderOffset
    requires forall j :: k < j < |sections| ==> !Holds(sections[j], sections[k].top + ReferenceOffset - HeaderOffset)
    ensures ScrollTarget(sections, id).Some?
    ensures var y := ScrollTarget(sections, id).value;
      && 0 <= y <= maxScroll
      && ActiveAfter(sections, y + ReferenceOffset, InitialActive) == id
  {
    var y := ScrollTarget(sections, id).value;
    assert y == sections[k].top - HeaderOffset;
    assert LastHolder(sections, y + ReferenceOffset, k);
    ActiveIsLastHolder(sections, y + ReferenceOffset, InitialActive, k);
  }
}
