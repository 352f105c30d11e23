/** Which window lies under a point: from the top down, closed against extents that could not be read. */
module HitTest {
  import opened Wrappers

  const MAX_DECORATION_TOP_PX := 64
  const MAX_DECORATION_SIDE_PX := 16

  datatype Rect = Rect(x: int, y: int, w: int, h: int)

  datatype Extents = Extents(left: int, right: int, top: int, bottom: int)

  /** `_contains`: half-open. */
  predicate Contains(r: Rect, x: int, y: int) {
    r.x <= x < r.x + r.w && r.y <= y < r.y + r.h
  }

  /** `_expand_by_extents` */
  function Expand(r: Rect, e: Extents): Rect {
    Rect(r.x - e.left, r.y - e.top, r.w + e.left + e.right, r.h + e.top + e.bottom)
  }

  /** `_probe_zone` */
  function ProbeZone(r: Rect): Rect {
    Rect(r.x - MAX_DECORATION_SIDE_PX, r.y - MAX_DECORATION_TOP_PX, r.w + 2 * MAX_DECORATION_SIDE_PX,
         r.h + MAX_DECORATION_TOP_PX + MAX_DECORATION_SIDE_PX)
  }

  /** A window as it is, and what the readings of it give: `listed` by the window manager, viewable and hittable,
      its client area, its true decorations, and the extents as read, if they could be. */
  datatype Window = Window(listed: bool, hittable: bool, client: Rect, decoration: Extents, extents: Option<Extents>)

  datatype Zone = Client | Decoration | ExtentsUnknown

  datatype Hit = Found(index: nat, zone: Zone) | NotFound | OutOfTime

  /** What one window says to the point, when it is looked at. */
  function ZoneAt(win: Window, x: int, y: int): Option<Zone> {
    if Contains(win.client, x, y) then Some(Client)
    else
      match win.extents
      case Some(e) => if Contains(Expand(win.client, e), x, y) then Some(Decoration) else None
      case None => if Contains(ProbeZone(win.client), x, y) then Some(ExtentsUnknown) else None
  }

  /** The scan over the lowest `n` windows of the stacking order, downwards; `late` says at which windows the time
      budget is found spent. */
  function Scan(stacking: seq<Window>, n: nat, x: int, y: int, late: set<nat>): Hit
    requires n <= |stacking|
  {
    if n == 0 then NotFound
    else
      var win := stacking[n - 1];
      if !win.listed then Scan(stacking, n - 1, x, y, late)
      else if n - 1 in late then OutOfTime
      else if !win.hittable then Scan(stacking, n - 1, x, y, late)
      else
        match ZoneAt(win, x, y)
        case Some(zone) => Found(n - 1, zone)
        case None => Scan(stacking, n - 1, x, y, late)
  }

  /** `window_at_point`; an empty stacking order is refused like a miss. */
  method WindowAtPoint(stacking: seq<Window>, x: int, y: int, late: set<nat>) returns (hit: Hit)
    ensures hit == Scan(stacking, |stacking|, x, y, late)
  {
    hide Contains, Expand, ProbeZone;
    var n := |stacking|;
    while n > 0
      invariant 0 <= n <= |stacking|
      invariant Scan(stacking, |stacking|, x, y, late) == Scan(stacking, n, x, y, late)
    {
      n := n - 1;
      var win := stacking[n];
      if win.listed {
        if n in late {
          return OutOfTime;
        }
        if win.hittable {
          if Contains(win.client, x, y) {
            return Found(n, Client);
          }
          if win.extents.Some? {
            if Contains(Expand(win.client, win.extents.value), x, y) {
              return Found(n, Decoration);
            }
          } else if Contains(ProbeZone(win.client), x, y) {
            return Found(n, ExtentsUnknown);
          }
        }
      }
    }
    return NotFound;
  }

  // ---------------------------------------------------------------- what the scan answers

  /** The point is in the client area; or in the frame, as read, around it; or, when the extents could not be read, within
      64 pixels above it or 16 pixels to the other sides. */
  predicate Says(win: Window, x: int, y: int, zone: Zone) {
    var c := win.client;
    var inClient := c.x <= x < c.x + c.w && c.y <= y < c.y + c.h;
    match zone
    case Client => inClient
    case Decoration =>
      && !inClient && win.extents.Some?
      && var e := win.extents.value;
      c.x - e.left <= x < c.x + c.w + e.right && c.y - e.top <= y < c.y + c.h + e.bottom
    case ExtentsUnknown =>
      !inClient && win.extents.None? && c.x - 16 <= x < c.x + c.w + 16 && c.y - 64 <= y < c.y + c.h + 16
  }

  lemma ZoneIsSaid(win: Window, x: int, y: int)
    ensures forall zone :: Says(win, x, y, zone) ==> ZoneAt(win, x, y) == Some(zone)
    ensures ZoneAt(win, x, y).Some? ==> Says(win, x, y, ZoneAt(win, x, y).value)
  {
  }

  /** The scan goes on below this window. */
  ghost predicate IsPassed(win: Window, i: nat, x: int, y: int, late: set<nat>) {
    !win.listed || (i !in late && (!win.hittable || forall zone :: !Says(win, x, y, zone)))
  }

  /** The topmost listed window that can be hit and says something to the point, unless the time is found spent at a listed
      window above it. */
  ghost predicate IsAnswer(stacking: seq<Window>, n: nat, x: int, y: int, late: set<nat>, hit: Hit)
    requires n <= |stacking|
  {
    match hit
    case Found(i, zone) =>
      && i < n && stacking[i].listed && i !in late && stacking[i].hittable && Says(stacking[i], x, y, zone)
      && forall j :: i < j < n ==> IsPassed(stacking[j], j, x, y, late)
    case OutOfTime =>
      exists k :: 0 <= k < n && stacking[k].listed && k in late && forall j :: k < j < n ==> IsPassed(stacking[j], j, x, y, late)
    case NotFound => forall j :: 0 <= j < n ==> IsPassed(stacking[j], j, x, y, late)
  }

  lemma AnswerBelow(stacking: seq<Window>, n: nat, x: int, y: int, late: set<nat>, hit: Hit)
    requires 0 < n <= |stacking| && IsPassed(stacking[n - 1], n - 1, x, y, late)
    ensures IsAnswer(stacking, n, x, y, late, hit) <==> IsAnswer(stacking, n - 1, x, y, late, hit)
  {
    hide Says;
  }

  lemma AnswerHere(stacking: seq<Window>, n: nat, x: int, y: int, late: set<nat>, hit: Hit)
    requires 0 < n <= |stacking| && !IsPassed(stacking[n - 1], n - 1, x, y, late)
    ensures IsAnswer(stacking, n, x, y, late, hit)
       <==> if n - 1 in late then hit.OutOfTime? else hit.Found? && hit.index == n - 1 && Says(stacking[n - 1], x, y, hit.zone)
  {
    hide Says;
  }

  lemma {:induction false} ScanIff(stacking: seq<Window>, n: nat, x: int, y: int, late: set<nat>, hit: Hit)
    requires n <= |stacking|
    ensures Scan(stacking, n, x, y, late) == hit <==> IsAnswer(stacking, n, x, y, late, hit)
  {
    hide Says, ZoneAt;
    if n > 0 {
      hide IsAnswer;
      ScanIff(stacking, n - 1, x, y, late, hit);
      ZoneIsSaid(stacking[n - 1], x, y);
      if IsPassed(stacking[n - 1], n - 1, x, y, late) {
        AnswerBelow(stacking, n, x, y, late, hit);
      } else {
        AnswerHere(stacking, n, x, y, late, hit);
      }
    }
  }

  // ---------------------------------------------------------------- what is true of the screen

  predicate Sized(win: Window) {
    && win.client.w >= 0 && win.client.h >= 0
    && win.decoration.left >= 0 && win.decoration.right >= 0 && win.decoration.top >= 0 && win.decoration.bottom >= 0
  }

  /** The decorations are no wider than the probe zone allows for. */
  predicate SmallDecoration(e: Extents) {
    && e.top <= MAX_DECORATION_TOP_PX && e.left <= MAX_DECORATION_SIDE_PX
    && e.right <= MAX_DECORATION_SIDE_PX && e.bottom <= MAX_DECORATION_SIDE_PX
  }

  /** The point lies in the frame the user sees. */
  predicate TrulyHit(win: Window, x: int, y: int) {
    win.hittable && Contains(Expand(win.client, win.decoration), x, y)
  }

  /** The window manager lists every window that can be hit, and extents that are read are true. */
  ghost predicate Readable(stacking: seq<Window>) {
    forall i :: 0 <= i < |stacking| ==>
      && Sized(stacking[i]) && (stacking[i].hittable ==> stacking[i].listed)
      && (stacking[i].extents.Some? ==> stacking[i].extents.value == stacking[i].decoration)
  }

  /** Decorations are small where they must be guessed: on windows that can be hit and whose extents cannot be read. */
  ghost predicate GuessedAreSmall(stacking: seq<Window>) {
    forall i :: 0 <= i < |stacking| && stacking[i].hittable && stacking[i].extents.None? ==> SmallDecoration(stacking[i].decoration)
  }

  /** The probe zone covers a window's frame exactly when its decorations are small enough. */
  lemma ProbeCoversIff(client: Rect, e: Extents)
    requires client.w > 0 && client.h > 0 && e.left >= 0 && e.right >= 0 && e.top >= 0 && e.bottom >= 0
    ensures SmallDecoration(e) <==> forall x, y :: Contains(Expand(client, e), x, y) ==> Contains(ProbeZone(client), x, y)
  {
    if forall x, y :: Contains(Expand(client, e), x, y) ==> Contains(ProbeZone(client), x, y) {
      assert Contains(Expand(client, e), client.x - e.left, client.y - e.top);
      assert Contains(Expand(client, e), client.x + client.w + e.right - 1, client.y + client.h + e.bottom - 1);
      assert Contains(ProbeZone(client), client.x - e.left, client.y - e.top);
      assert Contains(ProbeZone(client), client.x + client.w + e.right - 1, client.y + client.h + e.bottom - 1);
    }
  }

  /** A window whose true frame contains the point never lets the scan pass. */
  lemma NeverPassed(win: Window, x: int, y: int)
    requires Sized(win) && (win.hittable && win.extents.None? ==> SmallDecoration(win.decoration))
    requires win.extents.Some? ==> win.extents.value == win.decoration
    ensures TrulyHit(win, x, y) ==> ZoneAt(win, x, y).Some?
    ensures ZoneAt(win, x, y) in {Some(Client), Some(Decoration)} && win.hittable ==> TrulyHit(win, x, y)
  {
  }

  /** Whatever subset of extent reads fails: nothing above the answer is truly hit, an answer `Client` or `Decoration`
      is truly hit, and a miss means that nothing is. */
  lemma {:induction false} ScanIsSafe(stacking: seq<Window>, n: nat, x: int, y: int, late: set<nat>)
    requires n <= |stacking| && Readable(stacking) && GuessedAreSmall(stacking)
    ensures var hit := Scan(stacking, n, x, y, late);
      && (hit.Found? ==> hit.index < n && forall j :: hit.index < j < n ==> !TrulyHit(stacking[j], x, y))
      && (hit.Found? && !hit.zone.ExtentsUnknown? ==> TrulyHit(stacking[hit.index], x, y))
      && (hit.NotFound? ==> forall j :: 0 <= j < n ==> !TrulyHit(stacking[j], x, y))
  {
    hide Contains, ZoneAt, SmallDecoration, Sized;
    if n > 0 {
      NeverPassed(stacking[n - 1], x, y);
      ScanIsSafe(stacking, n - 1, x, y, late);
    }
  }

  /** The answer is never below the topmost window that is truly hit, and it is that window unless the extents of the
      window answered for are unknown or the time ran out. */
  lemma TopmostIsNeverMissed(stacking: seq<Window>, x: int, y: int, late: set<nat>, top: nat)
    requires Readable(stacking) && GuessedAreSmall(stacking)
    requires top < |stacking| && TrulyHit(stacking[top], x, y)
    requires forall j :: top < j < |stacking| ==> !TrulyHit(stacking[j], x, y)
    ensures var hit := Scan(stacking, |stacking|, x, y, late);
      && !hit.NotFound? && (hit.Found? ==> hit.index >= top)
      && (hit.Found? && !hit.zone.ExtentsUnknown? ==> hit.index == top)
  {
    hide Contains, ZoneAt, SmallDecoration, Sized, Scan, TrulyHit;
    ScanIsSafe(stacking, |stacking|, x, y, late);
  }

  /** The topmost window truly hit, if there is one. */
  ghost predicate IsTopmost(stacking: seq<Window>, x: int, y: int, hit: Hit) {
    match hit
    case Found(i, zone) =>
      && i < |stacking| && TrulyHit(stacking[i], x, y)
      && zone == (if Contains(stacking[i].client, x, y) then Client else Decoration)
      && forall j :: i < j < |stacking| ==> !TrulyHit(stacking[j], x, y)
    case OutOfTime => false
    case NotFound => forall j :: 0 <= j < |stacking| ==> !TrulyHit(stacking[j], x, y)
  }

  /** When all extents are read in time, the answer is exactly the topmost window truly hit, and says whether the point is
      in its client area or in the frame around it. */
  lemma ReadIsExact(stacking: seq<Window>, x: int, y: int, hit: Hit)
    requires Readable(stacking) && forall i :: 0 <= i < |stacking| ==> stacking[i].extents.Some?
    ensures Scan(stacking, |stacking|, x, y, {}) == hit <==> IsTopmost(stacking, x, y, hit)
  {
    hide Says, Scan, TrulyHit, IsPassed, Contains;
    ScanIff(stacking, |stacking|, x, y, {}, hit);
    forall j | 0 <= j < |stacking|
      ensures IsPassed(stacking[j], j, x, y, {}) <==> !TrulyHit(stacking[j], x, y)
    {
      ReadSays(stacking[j], j, x, y, Client);
    }
    if hit.Found? && hit.index < |stacking| {
      ReadSays(stacking[hit.index], hit.index, x, y, hit.zone);
    }
  }

  lemma ReadSays(win: Window, i: nat, x: int, y: int, zone: Zone)
    requires Sized(win) && win.extents == Some(win.decoration) && (win.hittable ==> win.listed)
    ensures IsPassed(win, i, x, y, {}) <==> !TrulyHit(win, x, y)
    ensures (win.hittable && Says(win, x, y, zone))
       <==> (TrulyHit(win, x, y) && zone == (if Contains(win.client, x, y) then Client else Decoration))
  {
    assert Says(win, x, y, Client) || Says(win, x, y, Decoration) <==> Contains(Expand(win.client, win.decoration), x, y);
  }

  /** Why these decorations must be small: under a taller title bar whose extents cannot be read, the scan falls through
      to the window below. */
  lemma TallDecorationFallsThrough(top: int)
    requires top > MAX_DECORATION_TOP_PX
    ensures var above := Window(true, true, Rect(0, 0, 100, 100), Extents(0, 0, top, 0), None);
      var below := Window(true, true, Rect(0, -top, 100, 100), Extents(0, 0, 0, 0), None);
      TrulyHit(above, 0, -top) && Scan([below, above], 2, 0, -top, {}) == Found(0, Client)
  {
    var above := Window(true, true, Rect(0, 0, 100, 100), Extents(0, 0, top, 0), None);
    var below := Window(true, true, Rect(0, -top, 100, 100), Extents(0, 0, 0, 0), None);
    var stacking := [below, above];
    assert ZoneAt(above, 0, -top) == None;
    assert ZoneAt(below, 0, -top) == Some(Client);
    assert Scan(stacking, 1, 0, -top, {}) == Found(0, Client);
  }
}
