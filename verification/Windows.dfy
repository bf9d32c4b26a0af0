/**
 The window manager: the window table, its z-order compacted in place, painting and
 hit-testing. The class changes the table; each of its methods names the function of the
 table that it computes, and the laws of stacking are proved about those functions.
 */
module Windows {
  import opened Options
  import opened Words

  const MAX_WINDOWS := 64

  datatype State = Normal | Minimized | Maximized

  datatype Window = Window(used: bool, id: nat, x: int, y: int, w: int, h: int, state: State, z: nat)

  // ---------------------------------------------------------------- counting

  function Count(ws: seq<Window>): (n: nat)
    ensures n <= |ws|
  {
    if ws == [] then 0 else (if ws[0].used then 1 else 0) + Count(ws[1..])
  }

  // How many used windows lie lower than `z`.
  function Below(ws: seq<Window>, z: nat): nat {
    if ws == [] then 0 else (if ws[0].used && ws[0].z < z then 1 else 0) + Below(ws[1..], z)
  }

  // How many used windows lie at `z`.
  function AtZ(ws: seq<Window>, z: nat): nat {
    if ws == [] then 0 else (if ws[0].used && ws[0].z == z then 1 else 0) + AtZ(ws[1..], z)
  }

  function MaxZ(ws: seq<Window>): (m: nat)
    ensures forall i :: 0 <= i < |ws| && ws[i].used ==> ws[i].z <= m
    ensures m == 0 || exists i :: 0 <= i < |ws| && ws[i].used && ws[i].z == m
  {
    if ws == [] then 0
    else
      var m := MaxZ(ws[..|ws| - 1]);
      var last := ws[|ws| - 1];
      if last.used && last.z > m then last.z else m
  }

  ghost predicate Distinct(ws: seq<Window>) {
    forall i, j :: 0 <= i < j < |ws| && ws[i].used && ws[j].used ==> ws[i].z != ws[j].z
  }

  // No two used windows share a place below `n`.
  ghost predicate LowApart(ws: seq<Window>, n: nat) {
    forall i, j :: 0 <= i < j < |ws| && ws[i].used && ws[j].used && ws[i].z == ws[j].z ==> ws[i].z >= n
  }

  // Windows at or above `n` are not reached by the passes and keep their place.
  function Rank(ws: seq<Window>, n: nat, w: Window): nat {
    if w.used && w.z < n then Below(ws, w.z) else w.z
  }

  function Compacted(ws: seq<Window>, n: nat): (r: seq<Window>)
    ensures |r| == |ws|
    ensures forall i :: 0 <= i < |ws| ==> r[i] == ws[i].(z := Rank(ws, n, ws[i]))
  {
    seq(|ws|, i requires 0 <= i < |ws| => ws[i].(z := Rank(ws, n, ws[i])))
  }

  lemma {:induction false} BelowStep(ws: seq<Window>, z: nat)
    ensures Below(ws, z + 1) == Below(ws, z) + AtZ(ws, z)
  {
    if ws != [] {
      BelowStep(ws[1..], z);
    }
  }

  lemma {:induction false} AtZAppend(ws: seq<Window>, w: Window, z: nat)
    ensures AtZ(ws + [w], z) == AtZ(ws, z) + if w.used && w.z == z then 1 else 0
  {
    if ws == [] {
      assert ws + [w] == [w];
    } else {
      AtZAppend(ws[1..], w, z);
      assert (ws + [w])[1..] == ws[1..] + [w];
    }
  }

  lemma {:induction false} NoneAtZ(ws: seq<Window>, z: nat)
    ensures AtZ(ws, z) == 0 <==> forall i :: 0 <= i < |ws| && ws[i].used ==> ws[i].z != z
  {
    if ws != [] {
      NoneAtZ(ws[1..], z);
      assert forall i :: 0 < i < |ws| ==> ws[i] == ws[1..][i - 1];
      if ws[0].used && ws[0].z == z {
      } else if i :| 0 <= i < |ws| && ws[i].used && ws[i].z == z {
        assert ws[1..][i - 1] == ws[i];
      }
    }
  }

  lemma {:induction false} AtMostOne(ws: seq<Window>, n: nat, z: nat)
    requires LowApart(ws, n) && z < n
    ensures AtZ(ws, z) <= 1
  {
    if ws != [] {
      AtMostOne(ws[1..], n, z);
      NoneAtZ(ws[1..], z);
    }
  }

  // Places that are not shared leave at most `z` windows below `z`.
  lemma {:induction false} RankIsLow(ws: seq<Window>, n: nat, z: nat)
    requires LowApart(ws, n) && z <= n
    ensures Below(ws, z) <= z
  {
    if z == 0 {
      NothingBelow(ws);
    } else {
      RankIsLow(ws, n, z - 1);
      BelowStep(ws, z - 1);
      AtMostOne(ws, n, z - 1);
    }
  }

  lemma {:induction false} NothingBelow(ws: seq<Window>)
    ensures Below(ws, 0) == 0
  {
    if ws != [] {
      NothingBelow(ws[1..]);
    }
  }

  lemma {:induction false} BelowGrows(ws: seq<Window>, z: nat, z': nat)
    requires z <= z'
    ensures Below(ws, z) <= Below(ws, z') <= Count(ws)
  {
    if ws != [] {
      BelowGrows(ws[1..], z, z');
    }
  }

  // A used window is counted above its own place.
  lemma RankGrows(ws: seq<Window>, i: nat, z: nat)
    requires i < |ws| && ws[i].used && ws[i].z < z
    ensures Below(ws, ws[i].z) < Below(ws, z) <= Count(ws)
  {
    BelowStep(ws, ws[i].z);
    NoneAtZ(ws, ws[i].z);
    BelowGrows(ws, ws[i].z + 1, z);
  }

  lemma RankIsSmall(ws: seq<Window>, i: nat)
    requires i < |ws| && ws[i].used
    ensures Below(ws, ws[i].z) < Count(ws)
  {
    RankGrows(ws, i, ws[i].z + 1);
  }

  // One pass over the table from slot `i` on: each window found at place `pass` gets the
  // next number.
  function PassFrom(ws: seq<Window>, pass: nat, i: nat, z: nat): (r: (seq<Window>, nat))
    ensures |r.0| == |ws| && forall j :: 0 <= j < |ws| ==> r.0[j] == ws[j].(z := r.0[j].z)
    decreases |ws| - i
  {
    if i >= |ws| then (ws, z)
    else if ws[i].used && ws[i].z == pass then PassFrom(ws[i := ws[i].(z := z)], pass, i + 1, z + 1)
    else PassFrom(ws, pass, i + 1, z)
  }

  // The passes from `pass` on, over the table as the earlier ones left it.
  function Passes(ws: seq<Window>, n: nat, pass: nat, z: nat): (r: seq<Window>)
    ensures |r| == |ws| && forall j :: 0 <= j < |ws| ==> r[j] == ws[j].(z := r[j].z)
    decreases n - pass
  {
    if pass >= n then ws
    else
      var (ws', z') := PassFrom(ws, pass, 0, z);
      Passes(ws', n, pass + 1, z')
  }

  function Compact(ws: seq<Window>): (r: seq<Window>)
    ensures |r| == |ws| && forall j :: 0 <= j < |ws| ==> r[j] == ws[j].(z := r[j].z)
  {
    Passes(ws, |ws|, 0, 0)
  }

  /** wm_compact_z: the passes read places that earlier passes wrote, in one array. */
  method CompactZ(arr: array<Window>, n: nat)
    requires n == arr.Length
    modifies arr
    ensures arr[..] == Compact(old(arr[..]))
  {
    hide PassFrom;
    var z, pass := 0, 0;
    while pass < n
      invariant pass <= n && Passes(arr[..], n, pass, z) == Compact(old(arr[..]))
    {
      z := Pass(arr, n, pass, z);
      pass := pass + 1;
    }
  }

  // One pass over the table.
  method Pass(arr: array<Window>, n: nat, pass: nat, z: nat) returns (z': nat)
    requires n == arr.Length
    modifies arr
    ensures (arr[..], z') == PassFrom(old(arr[..]), pass, 0, z)
  {
    z' := z;
    var i := 0;
    while i < n
      invariant i <= n && PassFrom(arr[..], pass, i, z') == PassFrom(old(arr[..]), pass, 0, z)
    {
      if arr[i].used && arr[i].z == pass {
        ghost var was := arr[..];
        arr[i] := arr[i].(z := z');
        assert arr[..] == was[i := arr[i]];
        z' := z' + 1;
      }
      i := i + 1;
    }
  }

  // The table in the middle of a pass: slots before `i` have had it, the others not yet.
  ghost predicate Midway(ws: seq<Window>, cur: seq<Window>, pass: nat, i: nat) {
    && |cur| == |ws| && i <= |ws|
    && (forall j :: 0 <= j < i ==> cur[j] == ws[j].(z := Rank(ws, pass + 1, ws[j])))
    && (forall j :: i <= j < |ws| ==> cur[j] == ws[j].(z := Rank(ws, pass, ws[j])))
  }

  lemma {:induction false} PassRanks(ws: seq<Window>, cur: seq<Window>, n: nat, pass: nat, i: nat, z: nat)
    requires LowApart(ws, n) && pass < n && Midway(ws, cur, pass, i) && z == Below(ws, pass) + AtZ(ws[..i], pass)
    ensures var (cur', z') := PassFrom(cur, pass, i, z);
      z' == Below(ws, pass + 1) && |cur'| == |ws|
      && forall j :: 0 <= j < |ws| ==> cur'[j] == ws[j].(z := Rank(ws, pass + 1, ws[j]))
    decreases |ws| - i
  {
    if i == |ws| {
      assert ws[..i] == ws;
      BelowStep(ws, pass);
    } else {
      hide Below, AtZ;
      assert ws[..i + 1] == ws[..i] + [ws[i]];
      AtZAppend(ws[..i], ws[i], pass);
      if ws[i].z < pass {
        RankIsLow(ws, n, ws[i].z);
      }
      if cur[i].used && cur[i].z == pass {
        NoneAtZ(ws[..i], pass);
        PassRanks(ws, cur[i := cur[i].(z := z)], n, pass, i + 1, z + 1);
      } else {
        PassRanks(ws, cur, n, pass, i + 1, z);
      }
    }
  }

  lemma {:induction false} PassesRank(ws: seq<Window>, cur: seq<Window>, n: nat, pass: nat)
    requires LowApart(ws, n) && pass <= n && |cur| == |ws|
    requires forall j :: 0 <= j < |ws| ==> cur[j] == ws[j].(z := Rank(ws, pass, ws[j]))
    ensures Passes(cur, n, pass, Below(ws, pass)) == Compacted(ws, n)
    decreases n - pass
  {
    hide PassFrom, Below;
    if pass < n {
      NoneAtZ(ws[..0], pass);
      PassRanks(ws, cur, n, pass, 0, Below(ws, pass));
      PassesRank(ws, PassFrom(cur, pass, 0, Below(ws, pass)).0, n, pass + 1);
    }
  }

  /** Although the passes read what earlier passes wrote, windows that share no place below
      the number of passes get their ranks. */
  lemma CompactIsRanks(ws: seq<Window>)
    requires LowApart(ws, |ws|)
    ensures Compact(ws) == Compacted(ws, |ws|)
  {
    NothingBelow(ws);
    PassesRank(ws, ws, |ws|, 0);
  }

  /** The passes give every window its rank exactly when none lies past them. */
  lemma CompactionCompleteIff(ws: seq<Window>)
    requires LowApart(ws, |ws|)
    ensures (forall i :: 0 <= i < |ws| && ws[i].used ==> Compact(ws)[i].z == Below(ws, ws[i].z))
      <==> forall i :: 0 <= i < |ws| && ws[i].used ==> ws[i].z < |ws|
  {
    CompactIsRanks(ws);
    forall i | 0 <= i < |ws| && ws[i].used
      ensures Compact(ws)[i].z == Below(ws, ws[i].z) <==> ws[i].z < |ws|
    {
      RankIsSmall(ws, i);
    }
  }

  /** Compaction changes places only and keeps the stacking order of all windows; those that
      the passes reach land below the count, the others stay where they are. */
  lemma CompactionKeepsOrder(ws: seq<Window>)
    requires LowApart(ws, |ws|)
    ensures var r := Compact(ws);
      && Count(r) == Count(ws) && (forall i :: 0 <= i < |ws| ==> r[i] == ws[i].(z := r[i].z))
      && (forall i :: 0 <= i < |ws| && ws[i].used ==> if ws[i].z < |ws| then r[i].z < Count(ws) else r[i].z == ws[i].z)
      && (forall i, j :: 0 <= i < |ws| && 0 <= j < |ws| && ws[i].used && ws[j].used ==>
            (r[i].z < r[j].z <==> ws[i].z < ws[j].z))
  {
    hide Below, Count, Compact;
    CompactIsRanks(ws);
    var r := Compacted(ws, |ws|);
    CountSame(ws, r);
    forall i | 0 <= i < |ws| && ws[i].used
      ensures ws[i].z < |ws| ==> r[i].z < Count(ws)
    {
      RankIsSmall(ws, i);
    }
    forall i, j | 0 <= i < |ws| && 0 <= j < |ws| && ws[i].used && ws[j].used
      ensures r[i].z < r[j].z <==> ws[i].z < ws[j].z
    {
      if ws[i].z < ws[j].z {
        OrderOfTwo(ws, i, j);
      } else if ws[j].z < ws[i].z {
        OrderOfTwo(ws, j, i);
      }
    }
  }

  lemma OrderOfTwo(ws: seq<Window>, i: nat, j: nat)
    requires i < |ws| && j < |ws| && ws[i].used && ws[j].used && ws[i].z < ws[j].z
    ensures Rank(ws, |ws|, ws[i]) < Rank(ws, |ws|, ws[j])
  {
    RankIsSmall(ws, i);
    RankGrows(ws, i, ws[j].z);
  }

  // ---------------------------------------------------------------- painting and hitting

  predicate Shown(w: Window) { w.used && w.state != Minimized }

  predicate Covers(w: Window, x: int, y: int) {
    Shown(w) && w.x <= x < w.x + w.w && w.y <= y < w.y + w.h
  }

  // The windows still to be painted, from pass `z` and slot `i` on, in painting order.
  function PaintFrom(ws: seq<Window>, z: nat, i: nat): seq<nat>
    requires i <= |ws|
    decreases MAX_WINDOWS + 1 - z, |ws| - i
  {
    if z > MAX_WINDOWS then []
    else if i == |ws| then PaintFrom(ws, z + 1, 0)
    else (if Shown(ws[i]) && ws[i].z == z then [i] else []) + PaintFrom(ws, z, i + 1)
  }

  function PaintOrder(ws: seq<Window>): seq<nat> { PaintFrom(ws, 0, 0) }

  lemma PaintSlot(ws: seq<Window>, z: nat, i: nat)
    requires i < |ws| && z <= MAX_WINDOWS
    ensures PaintFrom(ws, z, i) == (if Shown(ws[i]) && ws[i].z == z then [i] else []) + PaintFrom(ws, z, i + 1)
  {
  }

  lemma PaintEnd(ws: seq<Window>, z: nat)
    ensures z <= MAX_WINDOWS ==> PaintFrom(ws, z, |ws|) == PaintFrom(ws, z + 1, 0)
    ensures z > MAX_WINDOWS ==> PaintFrom(ws, z, 0) == []
  {
  }

  // The window on top at a point of the screen: the last one painted over it.
  function LastOver(ws: seq<Window>, order: seq<nat>, x: int, y: int): (r: Option<nat>)
    ensures r.Some? ==> r.value in order && r.value < |ws|
  {
    if order == [] then None
    else
      var r := LastOver(ws, order[1..], x, y);
      if r.Some? then r
      else if order[0] < |ws| && Covers(ws[order[0]], x, y) then Some(order[0]) else None
  }

  // Window `k` is painted at or after pass `z`, slot `i`.
  predicate PaintedFrom(ws: seq<Window>, k: int, z: nat, i: nat) {
    0 <= k < |ws| && Shown(ws[k]) && ws[k].z <= MAX_WINDOWS && (z < ws[k].z || (z == ws[k].z && i <= k))
  }

  // Of the windows painted from here on that cover the point, `r` is painted last.
  ghost predicate LastPainted(ws: seq<Window>, z: nat, i: nat, x: int, y: int, r: Option<nat>) {
    match r
    case None => forall k :: PaintedFrom(ws, k, z, i) ==> !Covers(ws[k], x, y)
    case Some(t) =>
      && PaintedFrom(ws, t, z, i) && Covers(ws[t], x, y)
      && forall k :: PaintedFrom(ws, k, z, i) && Covers(ws[k], x, y) ==>
           ws[k].z < ws[t].z || (ws[k].z == ws[t].z && k <= t)
  }

  lemma {:induction false} LastOfPaint(ws: seq<Window>, z: nat, i: nat, x: int, y: int)
    requires i <= |ws|
    ensures LastPainted(ws, z, i, x, y, LastOver(ws, PaintFrom(ws, z, i), x, y))
    decreases MAX_WINDOWS + 1 - z, |ws| - i
  {
    hide PaintFrom, LastPainted;
    if z > MAX_WINDOWS {
      NothingPainted(ws, z, i, x, y);
    } else if i == |ws| {
      PaintEnd(ws, z);
      LastOfPaint(ws, z + 1, 0, x, y);
      NextPass(ws, z, x, y, LastOver(ws, PaintFrom(ws, z + 1, 0), x, y));
    } else {
      var rest := PaintFrom(ws, z, i + 1);
      PaintSlot(ws, z, i);
      LastOfPaint(ws, z, i + 1, x, y);
      NextSlot(ws, z, i, x, y, LastOver(ws, rest, x, y));
      if Shown(ws[i]) && ws[i].z == z {
        assert ([i] + rest)[1..] == rest;
      } else {
        assert [] + rest == rest;
      }
    }
  }

  lemma NothingPainted(ws: seq<Window>, z: nat, i: nat, x: int, y: int)
    requires i <= |ws| && z > MAX_WINDOWS
    ensures LastPainted(ws, z, i, x, y, LastOver(ws, PaintFrom(ws, z, i), x, y))
  {
  }

  lemma NextPass(ws: seq<Window>, z: nat, x: int, y: int, r: Option<nat>)
    requires LastPainted(ws, z + 1, 0, x, y, r)
    ensures LastPainted(ws, z, |ws|, x, y, r)
  {
    assert forall k :: PaintedFrom(ws, k, z, |ws|) ==> PaintedFrom(ws, k, z + 1, 0);
    assert forall k :: PaintedFrom(ws, k, z + 1, 0) ==> PaintedFrom(ws, k, z, |ws|);
  }

  lemma NextSlot(ws: seq<Window>, z: nat, i: nat, x: int, y: int, r: Option<nat>)
    requires i < |ws| && z <= MAX_WINDOWS && LastPainted(ws, z, i + 1, x, y, r)
    ensures var here := Shown(ws[i]) && ws[i].z == z && Covers(ws[i], x, y);
      LastPainted(ws, z, i, x, y, if r.None? && here then Some(i) else r)
  {
    assert forall k :: PaintedFrom(ws, k, z, i) ==> k == i || PaintedFrom(ws, k, z, i + 1);
    assert forall k :: PaintedFrom(ws, k, z, i + 1) ==> PaintedFrom(ws, k, z, i);
  }

  // The window that a click at the point hits.
  ghost predicate Topmost(ws: seq<Window>, x: int, y: int, k: int) {
    && 0 <= k < |ws| && Covers(ws[k], x, y)
    && forall j :: 0 <= j < |ws| && Covers(ws[j], x, y) ==> ws[j].z <= ws[k].z
  }

  // What wm_window_at returns: the first slot of the highest place over the point.
  ghost predicate Hit(ws: seq<Window>, x: int, y: int, k: int) {
    Topmost(ws, x, y, k) && forall j :: 0 <= j < k && Covers(ws[j], x, y) ==> ws[j].z < ws[k].z
  }

  // Painting reaches the window's place, and no later window over the point stands on it.
  ghost predicate InSight(ws: seq<Window>, x: int, y: int, k: nat)
    requires k < |ws|
  {
    ws[k].z <= MAX_WINDOWS && forall j :: k < j < |ws| && Covers(ws[j], x, y) ==> ws[j].z != ws[k].z
  }

  /** Hit-testing agrees with painting: the window hit is the last one painted over the point
      exactly when painting reaches its place and no later slot over the point shares it. */
  lemma HitIsLastPaintedIff(ws: seq<Window>, x: int, y: int, k: nat)
    requires Hit(ws, x, y, k)
    ensures LastOver(ws, PaintOrder(ws), x, y) == Some(k) <==> InSight(ws, x, y, k)
  {
    LastOfPaint(ws, 0, 0, x, y);
    if ws[k].z <= MAX_WINDOWS {
      assert PaintedFrom(ws, k, 0, 0);
      var t := LastOver(ws, PaintOrder(ws), x, y).value;
      assert ws[t].z == ws[k].z;
      assert forall j :: k < j < |ws| && Covers(ws[j], x, y) && ws[j].z == ws[k].z ==> PaintedFrom(ws, j, 0, 0);
    }
  }

  /** Where no window is hit none is painted. */
  lemma NoHitNoPaint(ws: seq<Window>, x: int, y: int)
    requires forall j :: 0 <= j < |ws| ==> !Covers(ws[j], x, y)
    ensures LastOver(ws, PaintOrder(ws), x, y) == None
  {
    LastOfPaint(ws, 0, 0, x, y);
  }

  // ---------------------------------------------------------------- operations on the table

  datatype Desk = Desk(windows: seq<Window>, nextId: nat)

  datatype Event =
    | Create(x: int, y: int, w: int, h: int)
    | Move(id: nat, x: int, y: int)
    | Resize(id: nat, w: int, h: int)
    | Minimize(id: nat)
    | Maximize(id: nat, screenWidth: int, screenHeight: int)
    | Close(id: nat)
    | Raise(id: nat)

  const UNUSED: Window := Window(false, 0, 0, 0, 0, 0, Normal, 0)

  function Empty(): Desk { Desk(seq(MAX_WINDOWS, _ => UNUSED), 1) }

  function FirstUnused(ws: seq<Window>, i: nat): (r: Option<nat>)
    requires i <= |ws|
    ensures match r
            case None => forall j :: i <= j < |ws| ==> ws[j].used
            case Some(k) => i <= k < |ws| && !ws[k].used && forall j :: i <= j < k ==> ws[j].used
    decreases |ws| - i
  {
    if i == |ws| then None else if !ws[i].used then Some(i) else FirstUnused(ws, i + 1)
  }

  function WithId(ws: seq<Window>, id: nat, i: nat): (r: Option<nat>)
    requires i <= |ws|
    ensures r.Some? ==> i <= r.value < |ws| && ws[r.value].used && ws[r.value].id == id
    ensures r.None? ==> forall j :: i <= j < |ws| && ws[j].used ==> ws[j].id != id
    decreases |ws| - i
  {
    if i == |ws| then None else if ws[i].used && ws[i].id == id then Some(i) else WithId(ws, id, i + 1)
  }

  predicate TooSmall(w: int, h: int) { w < 80 || h < 50 }

  function Grown(w: Window, screenWidth: int, screenHeight: int): Window {
    if w.state == State.Maximized then
      w.(state := Normal, x := if w.x > 0 then w.x else 100, y := if w.y > 40 then w.y else 100, w := 400, h := 300)
    else
      w.(state := State.Maximized, x := 12, y := 12, w := screenWidth - 24, h := screenHeight - 72)
  }

  /** What a call makes of the table. */
  function Step(d: Desk, e: Event): Desk {
    var ws := d.windows;
    match e
    case Create(x, y, w, h) =>
      var i := FirstUnused(ws, 0);
      if TooSmall(w, h) || i.None? then d
      else Desk(ws[i.value := Window(true, d.nextId, x, y, w, h, Normal, Count(ws) + 1)], U32(d.nextId + 1))
    case Move(id, x, y) =>
      var i := WithId(ws, id, 0);
      if i.None? then d else d.(windows := ws[i.value := ws[i.value].(x := x, y := y)])
    case Resize(id, w, h) =>
      var i := WithId(ws, id, 0);
      if i.None? || TooSmall(w, h) then d
      else
        var s := if ws[i.value].state == State.Maximized then Normal else ws[i.value].state;
        d.(windows := ws[i.value := ws[i.value].(state := s, w := w, h := h)])
    case Minimize(id) =>
      var i := WithId(ws, id, 0);
      if i.None? then d else d.(windows := ws[i.value := ws[i.value].(state := Minimized)])
    case Maximize(id, sw, sh) =>
      var i := WithId(ws, id, 0);
      if i.None? then d else d.(windows := ws[i.value := Grown(ws[i.value], sw, sh)])
    case Close(id) =>
      var i := WithId(ws, id, 0);
      if i.None? then d else d.(windows := Compact(ws[i.value := ws[i.value].(used := false)]))
    case Raise(id) =>
      var i := WithId(ws, id, 0);
      if i.None? then d else d.(windows := Raised(ws, i.value))
  }

  function Raised(ws: seq<Window>, i: nat): (r: seq<Window>)
    requires i < |ws|
    ensures |r| == |ws|
  {
    Compact(ws[i := ws[i].(z := MaxZ(ws) + 1)])
  }

  lemma RaisedApart(ws: seq<Window>, i: nat, ws': seq<Window>)
    requires i < |ws| && ws' == ws[i := ws[i].(z := MaxZ(ws) + 1)]
    ensures (Distinct(ws) ==> Distinct(ws')) && forall n :: LowApart(ws, n) ==> LowApart(ws', n)
  {
  }

  lemma {:induction false} CountUpdate(ws: seq<Window>, i: nat, w: Window)
    requires i < |ws|
    ensures Count(ws[i := w]) + (if ws[i].used then 1 else 0) == Count(ws) + if w.used then 1 else 0
  {
    if i == 0 {
      assert ws[i := w][1..] == ws[1..];
    } else {
      CountUpdate(ws[1..], i - 1, w);
      assert ws[i := w][1..] == ws[1..][i - 1 := w];
    }
  }

  lemma {:induction false} CountSame(ws: seq<Window>, ws': seq<Window>)
    requires |ws| == |ws'| && forall i :: 0 <= i < |ws| ==> ws[i].used == ws'[i].used
    ensures Count(ws) == Count(ws')
  {
    if ws != [] {
      CountSame(ws[1..], ws'[1..]);
    }
  }

  // ---------------------------------------------------------------- runs

  // The places of the used windows are distinct and at most their number.
  ghost predicate Inv(d: Desk) {
    && |d.windows| == MAX_WINDOWS && Distinct(d.windows)
    && forall i :: 0 <= i < |d.windows| && d.windows[i].used ==> d.windows[i].z <= Count(d.windows)
  }

  lemma CompactedInv(ws: seq<Window>)
    requires Distinct(ws) && forall i :: 0 <= i < |ws| && ws[i].used ==> ws[i].z < |ws|
    ensures var r := Compact(ws);
      Distinct(r) && Count(r) == Count(ws) && forall i :: 0 <= i < |r| && r[i].used ==> r[i].z < Count(r)
  {
    hide Compact, Count;
    CompactionKeepsOrder(ws);
  }

  // A change of one window that leaves its use and its place alone.
  lemma PlaceKept(d: Desk, i: nat, w: Window)
    requires Inv(d) && i < |d.windows| && w.used == d.windows[i].used && w.z == d.windows[i].z
    ensures Inv(d.(windows := d.windows[i := w]))
  {
    CountUpdate(d.windows, i, w);
  }

  lemma CreateKeepsInv(d: Desk, e: Event)
    requires Inv(d) && e.Create?
    ensures Inv(Step(d, e))
  {
    var i := FirstUnused(d.windows, 0);
    if i.Some? {
      CountUpdate(d.windows, i.value, Window(true, d.nextId, e.x, e.y, e.w, e.h, Normal, Count(d.windows) + 1));
    }
  }

  /** With at most 62 windows open every call keeps the places distinct and at most the
      number of windows. */
  lemma StepKeepsInv(d: Desk, e: Event)
    requires Inv(d) && Count(d.windows) <= MAX_WINDOWS - 2
    ensures Inv(Step(d, e))
  {
    hide Below, MaxZ, Count, FirstUnused, Compacted;
    var ws := d.windows;
    match e
    case Create(_, _, _, _) => CreateKeepsInv(d, e);
    case Close(id) =>
      var i := WithId(ws, id, 0);
      if i.Some? {
        CountUpdate(ws, i.value, ws[i.value].(used := false));
        CompactedInv(ws[i.value := ws[i.value].(used := false)]);
      }
    case Raise(id) =>
      var i := WithId(ws, id, 0);
      if i.Some? {
        CountUpdate(ws, i.value, ws[i.value].(z := MaxZ(ws) + 1));
        RaisedApart(ws, i.value, ws[i.value := ws[i.value].(z := MaxZ(ws) + 1)]);
        CompactedInv(ws[i.value := ws[i.value].(z := MaxZ(ws) + 1)]);
      }
    case _ =>
      var i := WithId(ws, e.id, 0);
      if i.Some? {
        assert Step(d, e) == d || Step(d, e) == d.(windows := ws[i.value := Step(d, e).windows[i.value]]);
        PlaceKept(d, i.value, Step(d, e).windows[i.value]);
      }
  }

  // ---------------------------------------------------------------- where windows are

  /** Where a window is seen after a call, by the points it covers: a move shifts it, a resize
      gives it another corner, a minimized window covers nothing, and a maximized one the
      screen but for a margin of 12 and the 48 rows of the dock. Its place in the stack, and
      all other windows, stay. */
  lemma CoveredAfter(d: Desk, e: Event, px: int, py: int)
    requires e.Move? || e.Resize? || e.Minimize? || e.Maximize?
    requires WithId(d.windows, e.id, 0).Some?
    ensures var ws, r, i := d.windows, Step(d, e).windows, WithId(d.windows, e.id, 0).value;
      var w := ws[i];
      && r == ws[i := r[i]] && r[i].used && r[i].id == e.id && r[i].z == w.z
      && (Covers(r[i], px, py) <==>
           match e
           case Move(_, x, y) => Covers(w, px - x + w.x, py - y + w.y)
           case Resize(_, width, height) =>
             if width < 80 || height < 50 then Covers(w, px, py)
             else !w.state.Minimized? && w.x <= px < w.x + width && w.y <= py < w.y + height
           case Minimize(_) => false
           case Maximize(_, screenWidth, screenHeight) =>
             if w.state.Maximized? then
               var (x, y) := (if w.x > 0 then w.x else 100, if w.y > 40 then w.y else 100);
               x <= px < x + 400 && y <= py < y + 300
             else 12 <= px < screenWidth - 12 && 12 <= py < screenHeight - 60)
  {
    hide Below, Count, MaxZ, Compact, FirstUnused, WithId;
  }

  /** A window is made exactly when it has at least 80 by 50 points and a slot is unused: in the
      lowest such slot, above all windows, where it was asked for. */
  lemma CreatedOnTop(d: Desk, x: int, y: int, w: int, h: int, i: nat)
    requires Inv(d) && i < 64
    ensures |d.windows| == 64
    ensures var ws, r := d.windows, Step(d, Create(x, y, w, h)).windows;
      if w >= 80 && h >= 50 && !ws[i].used && forall j :: 0 <= j < i ==> ws[j].used then
        && r == ws[i := r[i]] && r[i].used && r[i].id == d.nextId
        && (forall j :: 0 <= j < |ws| && ws[j].used ==> ws[j].z < r[i].z)
        && (forall px, py :: Covers(r[i], px, py) <==> x <= px < x + w && y <= py < y + h)
      else r[i] == ws[i]
  {
    hide Below, Count, MaxZ, Compact, WithId;
  }

  /** Maximizing twice does not bring a window back: a normal one returns to where it was
      exactly when it had 400 by 300 points at (12, 100). */
  lemma MaximizedTwiceIff(d: Desk, id: nat, screenWidth: int, screenHeight: int)
    requires WithId(d.windows, id, 0).Some? && d.windows[WithId(d.windows, id, 0).value].state.Normal?
    ensures var e, w := Maximize(id, screenWidth, screenHeight), d.windows[WithId(d.windows, id, 0).value];
      Step(Step(d, e), e) == d <==> w.x == 12 && w.y == 100 && w.w == 400 && w.h == 300
  {
    hide Below, Count, MaxZ, Compact, FirstUnused;
    var e, i := Maximize(id, screenWidth, screenHeight), WithId(d.windows, id, 0).value;
    SameId(d.windows, id, 0, i, Grown(d.windows[i], screenWidth, screenHeight));
    var w := d.windows[i];
    var back := Grown(Grown(w, screenWidth, screenHeight), screenWidth, screenHeight);
    assert Step(Step(d, e), e).windows == d.windows[i := back];
    assert back == w ==> d.windows[i := back] == d.windows;
    assert d.windows[i := back][i] == back;
  }

  lemma {:induction false} SameId(ws: seq<Window>, id: nat, from: nat, i: nat, w: Window)
    requires from <= |ws| && WithId(ws, id, from) == Some(i) && w.used && w.id == id
    ensures WithId(ws[i := w], id, from) == Some(i)
    decreases |ws| - from
  {
    if from < i {
      SameId(ws, id, from + 1, i, w);
    }
  }

  // Each number names one window at most, and the next is new.
  ghost predicate IdsApart(d: Desk) {
    && (forall i :: 0 <= i < |d.windows| && d.windows[i].used ==> 0 < d.windows[i].id < d.nextId)
    && (forall i, j :: 0 <= i < j < |d.windows| && d.windows[i].used && d.windows[j].used ==>
          d.windows[i].id != d.windows[j].id)
  }

  lemma StepKeepsIds(d: Desk, e: Event)
    requires IdsApart(d) && 0 < d.nextId < TWO32 - 1
    ensures IdsApart(Step(d, e)) && d.nextId <= Step(d, e).nextId <= d.nextId + 1
  {
    hide Below, Count, MaxZ, WithId, Compact;
    var ws, ws' := d.windows, Step(d, e).windows;
    if !e.Create? {
      SameNumbers(d, e);
    }
  }

  lemma SameNumbers(d: Desk, e: Event)
    requires !e.Create?
    ensures var ws, ws' := d.windows, Step(d, e).windows;
      && Step(d, e).nextId == d.nextId && |ws'| == |ws|
      && forall j :: 0 <= j < |ws| ==> ws'[j].id == ws[j].id && (ws'[j].used ==> ws[j].used)
  {
    hide Below, Count, MaxZ, WithId, Compact, FirstUnused;
  }

  lemma {:induction false} RunKeepsIds(d: Desk, run: seq<Event>)
    requires IdsApart(d) && 0 < d.nextId && d.nextId + |run| < TWO32
    ensures IdsApart(After(d, run))
    decreases |run|
  {
    if run != [] {
      StepKeepsIds(d, run[0]);
      RunKeepsIds(Step(d, run[0]), run[1..]);
    }
  }

  /** Over every run of at most 2^32 - 2 calls from an empty screen no two windows have the same
      number. */
  lemma NumbersAreApart(run: seq<Event>)
    requires |run| <= 0xFFFF_FFFE
    ensures var ws := After(Empty(), run).windows;
      forall i, j :: 0 <= i < j < |ws| && ws[i].used && ws[j].used ==> ws[i].id != ws[j].id
  {
    RunKeepsIds(Empty(), run);
  }

  // ---------------------------------------------------------------- every run

  // Whatever the number of windows: no place that compaction reaches is shared, and those in
  // use there are at most the number of windows.
  ghost predicate Stacked(d: Desk) {
    && |d.windows| == MAX_WINDOWS && LowApart(d.windows, MAX_WINDOWS)
    && forall i :: 0 <= i < |d.windows| && d.windows[i].used && d.windows[i].z < MAX_WINDOWS ==>
         d.windows[i].z <= Count(d.windows)
  }

  lemma CompactStacks(ws: seq<Window>, nextId: nat)
    requires |ws| == MAX_WINDOWS && LowApart(ws, MAX_WINDOWS)
    ensures Stacked(Desk(Compact(ws), nextId))
  {
    hide Compact, Count;
    CompactionKeepsOrder(ws);
  }

  lemma PlaceStays(d: Desk, i: nat, w: Window)
    requires Stacked(d) && i < |d.windows| && w.used == d.windows[i].used && w.z == d.windows[i].z
    ensures Stacked(d.(windows := d.windows[i := w]))
  {
    CountUpdate(d.windows, i, w);
  }

  lemma NewOnTop(d: Desk, i: nat, w: Window, nextId: nat)
    requires Stacked(d) && i < |d.windows| && !d.windows[i].used && w.used && w.z == Count(d.windows) + 1
    ensures Stacked(Desk(d.windows[i := w], nextId))
  {
    hide Count;
    CountUpdate(d.windows, i, w);
  }

  lemma CreateStacks(d: Desk, e: Event)
    requires Stacked(d) && e.Create?
    ensures Stacked(Step(d, e))
  {
    hide Count, FirstUnused, LowApart, Stacked;
    var i := FirstUnused(d.windows, 0);
    if i.Some? && !TooSmall(e.w, e.h) {
      NewOnTop(d, i.value, Window(true, d.nextId, e.x, e.y, e.w, e.h, Normal, Count(d.windows) + 1), U32(d.nextId + 1));
    }
  }

  lemma StepKeepsStacked(d: Desk, e: Event)
    requires Stacked(d)
    ensures Stacked(Step(d, e))
  {
    hide Below, MaxZ, Count, FirstUnused, Compact;
    var ws := d.windows;
    match e
    case Create(_, _, _, _) => CreateStacks(d, e);
    case Close(id) =>
      var i := WithId(ws, id, 0);
      if i.Some? {
        CompactStacks(ws[i.value := ws[i.value].(used := false)], d.nextId);
      }
    case Raise(id) =>
      var i := WithId(ws, id, 0);
      if i.Some? {
        RaisedApart(ws, i.value, ws[i.value := ws[i.value].(z := MaxZ(ws) + 1)]);
        CompactStacks(ws[i.value := ws[i.value].(z := MaxZ(ws) + 1)], d.nextId);
      }
    case _ =>
      var i := WithId(ws, e.id, 0);
      if i.Some? {
        assert Step(d, e) == d || Step(d, e) == d.(windows := ws[i.value := Step(d, e).windows[i.value]]);
        PlaceStays(d, i.value, Step(d, e).windows[i.value]);
      }
  }

  lemma {:induction false} RunKeepsStacked(d: Desk, run: seq<Event>)
    requires Stacked(d)
    ensures Stacked(After(d, run))
    decreases |run|
  {
    if run != [] {
      StepKeepsStacked(d, run[0]);
      RunKeepsStacked(Step(d, run[0]), run[1..]);
    }
  }

  /** Over every run of calls from an empty screen, with any number of windows, no two windows
      share a place below 64, and compaction computes ranks. */
  lemma EveryRunStacks(run: seq<Event>)
    ensures var ws := After(Empty(), run).windows;
      LowApart(ws, MAX_WINDOWS) && Compact(ws) == Compacted(ws, MAX_WINDOWS)
  {
    RunKeepsStacked(Empty(), run);
    CompactIsRanks(After(Empty(), run).windows);
  }

  /** Raising puts the window above all others and keeps the order of the others, however
      many windows are open. */
  lemma RaiseOnTop(d: Desk, id: nat)
    requires Stacked(d) && WithId(d.windows, id, 0).Some?
    ensures var ws, r, i := d.windows, Step(d, Raise(id)).windows, WithId(d.windows, id, 0).value;
      && |r| == |ws| && (forall j :: 0 <= j < |ws| ==> r[j] == ws[j].(z := r[j].z))
      && (forall j :: 0 <= j < |ws| && ws[j].used && j != i ==> r[j].z < r[i].z)
      && (forall j, k :: 0 <= j < |ws| && 0 <= k < |ws| && ws[j].used && ws[k].used && j != i && k != i ==>
            (r[j].z < r[k].z <==> ws[j].z < ws[k].z))
  {
    hide Below, Count, WithId, FirstUnused, Compact, MaxZ;
    var ws, i := d.windows, WithId(d.windows, id, 0).value;
    var ws' := ws[i := ws[i].(z := MaxZ(ws) + 1)];
    RaisedApart(ws, i, ws');
    CompactionKeepsOrder(ws');
    var r := Step(d, Raise(id)).windows;
    assert r == Compact(ws');
    forall j | 0 <= j < |ws| && ws[j].used && j != i
      ensures ws'[j] == ws[j] && r[j].z < r[i].z
    {
      assert ws'[j].z < ws'[i].z;
    }
  }

  /** Closing removes the window and keeps the order of the others, however many there are. */
  lemma CloseKeepsOrder(d: Desk, id: nat)
    requires Stacked(d) && WithId(d.windows, id, 0).Some?
    ensures var ws, r, i := d.windows, Step(d, Close(id)).windows, WithId(d.windows, id, 0).value;
      && |r| == |ws| && !r[i].used && Count(r) == Count(ws) - 1
      && (forall j :: 0 <= j < |ws| && j != i ==> r[j] == ws[j].(z := r[j].z))
      && (forall j, k :: 0 <= j < |ws| && 0 <= k < |ws| && ws[j].used && ws[k].used && j != i && k != i ==>
            (r[j].z < r[k].z <==> ws[j].z < ws[k].z))
  {
    hide Below, Count, WithId, FirstUnused, Compact;
    var ws, i := d.windows, WithId(d.windows, id, 0).value;
    var ws' := ws[i := ws[i].(used := false)];
    CompactionKeepsOrder(ws');
    CountUpdate(ws, i, ws[i].(used := false));
  }

  /** Raising gives the window the rank under the number of windows exactly when no window
      stood at place 63 or above. */
  lemma RaiseIsRankedIff(d: Desk, id: nat)
    requires Stacked(d) && WithId(d.windows, id, 0).Some?
    ensures var r, i := Step(d, Raise(id)).windows, WithId(d.windows, id, 0).value;
      r[i].z < Count(r) <==> MaxZ(d.windows) + 1 < MAX_WINDOWS
  {
    hide Below, WithId, FirstUnused, Compact, MaxZ;
    var ws, i := d.windows, WithId(d.windows, id, 0).value;
    var ws' := ws[i := ws[i].(z := MaxZ(ws) + 1)];
    RaisedApart(ws, i, ws');
    CompactionKeepsOrder(ws');
  }

  // ---------------------------------------------------------------- runs with room

  function After(d: Desk, run: seq<Event>): Desk
    decreases |run|
  {
    if run == [] then d else After(Step(d, run[0]), run[1..])
  }

  // At most 62 windows are open when a call of the run is made.
  ghost predicate Roomy(d: Desk, run: seq<Event>)
    decreases |run|
  {
    run != [] ==> Count(d.windows) <= MAX_WINDOWS - 2 && Roomy(Step(d, run[0]), run[1..])
  }

  lemma {:induction false} RunKeepsInv(d: Desk, run: seq<Event>)
    requires Inv(d) && Roomy(d, run)
    ensures Inv(After(d, run))
    decreases |run|
  {
    if run != [] {
      StepKeepsInv(d, run[0]);
      RunKeepsInv(Step(d, run[0]), run[1..]);
    }
  }

  lemma EmptyInv()
    ensures Inv(Empty()) && Count(Empty().windows) == 0
  {
    NoneUsed(Empty().windows);
  }

  lemma {:induction false} NoneUsed(ws: seq<Window>)
    requires forall i :: 0 <= i < |ws| ==> !ws[i].used
    ensures Count(ws) == 0
  {
    if ws != [] {
      NoneUsed(ws[1..]);
    }
  }

  /** In every state that such a run reaches from an empty screen, the window hit at a point
      is the one painted last over it, and none is hit where none is painted. */
  lemma ClicksHitWhatIsSeen(run: seq<Event>, x: int, y: int)
    requires Roomy(Empty(), run)
    ensures var ws := After(Empty(), run).windows;
      match LastOver(ws, PaintOrder(ws), x, y)
      case None => forall k :: 0 <= k < |ws| ==> !Covers(ws[k], x, y)
      case Some(k) => Hit(ws, x, y, k)
  {
    EmptyInv();
    RunKeepsInv(Empty(), run);
    var ws := After(Empty(), run).windows;
    LastOfPaint(ws, 0, 0, x, y);
    forall k | 0 <= k < |ws| && Covers(ws[k], x, y)
      ensures PaintedFrom(ws, k, 0, 0)
    {
    }
  }

  // ---------------------------------------------------------------- sixty-three windows

  function Creates(n: nat, x: int, y: int, w: int, h: int): (run: seq<Event>)
    ensures |run| == n
  {
    if n == 0 then [] else [Create(x, y, w, h)] + Creates(n - 1, x, y, w, h)
  }

  // The first `m` slots filled in order.
  ghost predicate Filled(d: Desk, m: nat, x: int, y: int, w: int, h: int) {
    && |d.windows| == MAX_WINDOWS && d.nextId == m + 1 && m <= MAX_WINDOWS && Count(d.windows) == m
    && (forall i :: 0 <= i < m ==> d.windows[i] == Window(true, i + 1, x, y, w, h, Normal, i + 1))
    && (forall i :: m <= i < MAX_WINDOWS ==> !d.windows[i].used)
  }

  lemma {:induction false} CreatesFill(d: Desk, m: nat, n: nat, x: int, y: int, w: int, h: int)
    requires Filled(d, m, x, y, w, h) && m + n <= MAX_WINDOWS && !TooSmall(w, h)
    ensures Filled(After(d, Creates(n, x, y, w, h)), m + n, x, y, w, h)
    decreases n
  {
    if n > 0 {
      var e := Create(x, y, w, h);
      CountUpdate(d.windows, m, Window(true, m + 1, x, y, w, h, Normal, m + 1));
      CreatesFill(Step(d, e), m + 1, n - 1, x, y, w, h);
      assert ([e] + Creates(n - 1, x, y, w, h))[1..] == Creates(n - 1, x, y, w, h);
    }
  }

  /** The bound is sharp: with 63 windows open, raising two of them in turn lifts the second
      one out of the range that is painted, and a click hits a window that is not seen. */
  lemma HiddenWindowIsHit(x: int, y: int, w: int, h: int)
    requires !TooSmall(w, h)
    ensures var d := After(Empty(), Creates(63, x, y, w, h));
      var ws := Step(Step(d, Raise(1)), Raise(2)).windows;
      && Count(d.windows) == 63 && |ws| == MAX_WINDOWS
      && Hit(ws, x, y, 1) && ws[1].id == 2 && LastOver(ws, PaintOrder(ws), x, y) != Some(1)
  {
    hide Compact, Below, Count, MaxZ, Covers, PaintFrom, LastOver, Creates, Topmost, Hit, After;
    EmptyInv();
    var d := After(Empty(), Creates(63, x, y, w, h));
    CreatesFill(Empty(), 0, 63, x, y, w, h);
    FilledMax(d, 63, x, y, w, h);
    RaisedHigh(d.windows, 0);
    var ws := Raised(d.windows, 0);
    assert Step(d, Raise(1)).windows == ws;
    assert ws[0].id == 1 && ws[1].id == 2 && WithId(ws, 2, 0) == Some(1);
    RaisedHigh(ws, 1);
    SeenAt(Raised(ws, 1), x, y);
  }

  /** Nor do places stay distinct: with 63 windows open, raising one and opening another puts
      both on place 64, and a click hits the lower one of the two. */
  lemma LowerWindowIsHit(x: int, y: int, w: int, h: int)
    requires !TooSmall(w, h)
    ensures var d := After(Empty(), Creates(63, x, y, w, h));
      var ws := Step(Step(d, Raise(1)), Create(x, y, w, h)).windows;
      && |ws| == MAX_WINDOWS && ws[0].used && ws[63].used && ws[0].z == ws[63].z == 64
      && Hit(ws, x, y, 0) && LastOver(ws, PaintOrder(ws), x, y) == Some(63)
  {
    hide Compact, Below, Count, MaxZ, PaintFrom, LastOver, Creates, After, FirstUnused, Hit;
    EmptyInv();
    var d := After(Empty(), Creates(63, x, y, w, h));
    CreatesFill(Empty(), 0, 63, x, y, w, h);
    FilledMax(d, 63, x, y, w, h);
    RaisedHigh(d.windows, 0);
    var ws := Raised(d.windows, 0);
    assert Step(d, Raise(1)).windows == ws;
    assert forall i :: 0 <= i < MAX_WINDOWS ==> ws[i].used == d.windows[i].used;
    CountSame(d.windows, ws);
    LastSlotTaken(Step(d, Raise(1)), x, y, w, h);
  }

  lemma LastSlotTaken(d: Desk, x: int, y: int, w: int, h: int)
    requires !TooSmall(w, h) && |d.windows| == MAX_WINDOWS && Count(d.windows) == 63
    requires d.windows[0].z == 64 == MaxZ(d.windows) && Covers(d.windows[0], x, y)
    requires forall i :: 0 <= i < MAX_WINDOWS ==> (d.windows[i].used <==> i < 63)
    ensures var ws := Step(d, Create(x, y, w, h)).windows;
      && |ws| == MAX_WINDOWS && ws[0].used && ws[63].used && ws[0].z == ws[63].z == 64
      && Hit(ws, x, y, 0) && LastOver(ws, PaintOrder(ws), x, y) == Some(63)
  {
    hide Count, MaxZ, PaintFrom, LastOver;
    var i := FirstUnused(d.windows, 0);
    assert !d.windows[63].used && (i.Some? ==> !d.windows[i.value].used);
    var ws := Step(d, Create(x, y, w, h)).windows;
    assert Covers(ws[63], x, y) && forall j :: 0 <= j < 63 ==> ws[j] == d.windows[j];
    LastOfPaint(ws, 0, 0, x, y);
    assert PaintedFrom(ws, 63, 0, 0);
  }

  lemma SeenAt(ws: seq<Window>, x: int, y: int)
    requires |ws| == MAX_WINDOWS && Covers(ws[1], x, y) && ws[1].z == MaxZ(ws) > MAX_WINDOWS && Distinct(ws)
    ensures Hit(ws, x, y, 1) && LastOver(ws, PaintOrder(ws), x, y) != Some(1)
  {
    HitIsLastPaintedIff(ws, x, y, 1);
  }

  lemma FilledMax(d: Desk, m: nat, x: int, y: int, w: int, h: int)
    requires Filled(d, m, x, y, w, h) && m > 0
    ensures MaxZ(d.windows) == m && Distinct(d.windows)
  {
    assert d.windows[m - 1].z == m;
  }

  lemma HighestIs(ws: seq<Window>, i: nat)
    requires i < |ws| && ws[i].used && forall j :: 0 <= j < |ws| && ws[j].used ==> ws[j].z <= ws[i].z
    ensures MaxZ(ws) == ws[i].z
  {
  }

  // Past the passes a raised window keeps the place above all others.
  lemma RaisedHigh(ws: seq<Window>, i: nat)
    requires i < |ws| == MAX_WINDOWS && ws[i].used && Distinct(ws) && MaxZ(ws) + 1 >= MAX_WINDOWS
    ensures var r := Raised(ws, i);
      && Distinct(r) && r[i].z == MaxZ(ws) + 1 == MaxZ(r)
      && forall j :: 0 <= j < |ws| ==> r[j] == ws[j].(z := r[j].z)
  {
    hide Below, Count, MaxZ, Compact;
    var ws' := ws[i := ws[i].(z := MaxZ(ws) + 1)];
    RaisedApart(ws, i, ws');
    CompactionKeepsOrder(ws');
    HighestIs(Raised(ws, i), i);
  }

  // ---------------------------------------------------------------- the table in memory

  class WindowManager {
    const windows: array<Window>
    var nextId: nat

    ghost predicate Valid()
      reads this, windows
    {
      windows.Length == MAX_WINDOWS
    }

    ghost function View(): Desk
      reads this, windows
    {
      Desk(windows[..], nextId)
    }

    /** wm_init. */
    constructor ()
      ensures Valid() && fresh(windows) && View() == Empty()
    {
      windows := new Window[MAX_WINDOWS](_ => UNUSED);
      nextId := 1;
    }

    /** wm_get_by_id: the slot of the window. */
    method GetById(id: nat) returns (i: int)
      requires Valid()
      ensures match WithId(windows[..], id, 0)
              case None => i == -1
              case Some(k) => i == k
    {
      i := 0;
      while i < MAX_WINDOWS
        invariant 0 <= i <= MAX_WINDOWS && WithId(windows[..], id, 0) == WithId(windows[..], id, i)
      {
        if windows[i].used && windows[i].id == id {
          return;
        }
        i := i + 1;
      }
      return -1;
    }

    method GetCount() returns (c: nat)
      requires Valid()
      ensures c == Count(windows[..])
    {
      c := 0;
      var i := 0;
      assert windows[..][0..] == windows[..];
      while i < MAX_WINDOWS
        invariant 0 <= i <= MAX_WINDOWS && Count(windows[..]) == c + Count(windows[..][i..])
      {
        assert windows[..][i..][1..] == windows[..][i + 1..];
        if windows[i].used {
          c := c + 1;
        }
        i := i + 1;
      }
    }

    method Create(x: int, y: int, w: int, h: int) returns (r: int)
      requires Valid() && nextId < TWO32
      modifies this, windows
      ensures Valid() && nextId < TWO32 && View() == Step(old(View()), Event.Create(x, y, w, h))
      ensures r == if TooSmall(w, h) || FirstUnused(old(windows[..]), 0).None? then -1 else old(nextId)
    {
      if w < 80 || h < 50 {
        return -1;
      }
      var i := 0;
      while i < MAX_WINDOWS
        invariant 0 <= i <= MAX_WINDOWS && windows[..] == old(windows[..]) && nextId == old(nextId)
        invariant FirstUnused(windows[..], 0) == FirstUnused(windows[..], i)
      {
        if !windows[i].used {
          windows[i] := Window(true, nextId, x, y, w, h, Normal, windows[i].z);
          r := nextId;
          nextId := U32(nextId + 1);
          CountUpdate(old(windows[..]), i, windows[i]);
          assert windows[..] == old(windows[..])[i := windows[i]];
          var count := GetCount();
          windows[i] := windows[i].(z := count);
          return;
        }
        i := i + 1;
      }
      return -1;
    }

    method Move(id: nat, x: int, y: int) returns (r: int)
      requires Valid()
      modifies windows
      ensures Valid() && View() == Step(old(View()), Event.Move(id, x, y))
      ensures r == if WithId(old(windows[..]), id, 0).None? then -1 else 0
    {
      var i := GetById(id);
      if i < 0 {
        return -1;
      }
      windows[i] := windows[i].(x := x, y := y);
      return 0;
    }

    method Resize(id: nat, w: int, h: int) returns (r: int)
      requires Valid()
      modifies windows
      ensures Valid() && View() == Step(old(View()), Event.Resize(id, w, h))
      ensures r == if WithId(old(windows[..]), id, 0).None? || TooSmall(w, h) then -1 else 0
    {
      var i := GetById(id);
      if i < 0 || w < 80 || h < 50 {
        return -1;
      }
      if windows[i].state == State.Maximized {
        windows[i] := windows[i].(state := Normal);
      }
      windows[i] := windows[i].(w := w, h := h);
      return 0;
    }

    method Minimize(id: nat) returns (r: int)
      requires Valid()
      modifies windows
      ensures Valid() && View() == Step(old(View()), Event.Minimize(id))
      ensures r == if WithId(old(windows[..]), id, 0).None? then -1 else 0
    {
      var i := GetById(id);
      if i < 0 {
        return -1;
      }
      windows[i] := windows[i].(state := Minimized);
      return 0;
    }

    method Maximize(id: nat, screenWidth: int, screenHeight: int) returns (r: int)
      requires Valid()
      modifies windows
      ensures Valid() && View() == Step(old(View()), Event.Maximize(id, screenWidth, screenHeight))
      ensures r == if WithId(old(windows[..]), id, 0).None? then -1 else 0
    {
      var i := GetById(id);
      if i < 0 {
        return -1;
      }
      windows[i] := Grown(windows[i], screenWidth, screenHeight);
      return 0;
    }

    method Close(id: nat) returns (r: int)
      requires Valid()
      modifies windows
      ensures Valid() && View() == Step(old(View()), Event.Close(id))
      ensures r == if WithId(old(windows[..]), id, 0).None? then -1 else 0
    {
      var i := GetById(id);
      if i < 0 {
        return -1;
      }
      windows[i] := windows[i].(used := false);
      assert windows[..] == old(windows[..])[i := windows[i]];
      CompactZ(windows, MAX_WINDOWS);
      return 0;
    }

    method Raise(id: nat) returns (r: int)
      requires Valid()
      modifies windows
      ensures Valid() && View() == Step(old(View()), Event.Raise(id))
      ensures r == if WithId(old(windows[..]), id, 0).None? then -1 else 0
    {
      hide Compact, MaxZ;
      var i := GetById(id);
      if i < 0 {
        return -1;
      }
      ghost var raised := windows[..][i := windows[i].(z := MaxZ(windows[..]) + 1)];
      var maxz := Highest();
      windows[i] := windows[i].(z := maxz + 1);
      assert windows[..] == raised;
      CompactZ(windows, MAX_WINDOWS);
      return 0;
    }

    // The highest place in use.
    method Highest() returns (maxz: nat)
      requires Valid()
      ensures maxz == MaxZ(windows[..])
    {
      maxz := 0;
      var i := 0;
      while i < MAX_WINDOWS
        invariant 0 <= i <= MAX_WINDOWS && maxz == MaxZ(windows[..][..i])
      {
        assert windows[..][..i + 1][..i] == windows[..][..i];
        if windows[i].used && windows[i].z > maxz {
          maxz := windows[i].z;
        }
        i := i + 1;
      }
      assert windows[..][..MAX_WINDOWS] == windows[..];
    }

    /** wm_window_at returns the first slot of the highest place over the point. It is the
        last window painted there exactly when painting reaches that place and no later slot
        over the point shares it. */
    method WindowAt(x: int, y: int) returns (r: int, idOut: Option<nat>, ghost best: int)
      requires Valid()
      ensures r == -1 ==> idOut == None && forall j :: 0 <= j < MAX_WINDOWS ==> !Covers(windows[j], x, y)
      ensures r != -1 ==> r == 0 && Hit(windows[..], x, y, best) && idOut == Some(windows[best].id)
                          && (LastOver(windows[..], PaintOrder(windows[..]), x, y) == Some(best)
                              <==> InSight(windows[..], x, y, best))
      ensures Inv(View()) ==>
                LastOver(windows[..], PaintOrder(windows[..]), x, y) == if r == -1 then None else Some(best)
    {
      var top, bestz: int, i := -1, -1, 0;
      while i < MAX_WINDOWS
        invariant 0 <= i <= MAX_WINDOWS && -1 <= top < i
        invariant top == -1 ==> bestz == -1 && forall j :: 0 <= j < i ==> !Covers(windows[j], x, y)
        invariant top != -1 ==> Covers(windows[top], x, y) && bestz == windows[top].z
        invariant forall j :: 0 <= j < i && Covers(windows[j], x, y) ==> windows[j].z <= bestz
        invariant forall j :: 0 <= j < top && Covers(windows[j], x, y) ==> windows[j].z < bestz
      {
        var w := windows[i];
        if w.used && w.state != Minimized && x >= w.x && y >= w.y && x < w.x + w.w && y < w.y + w.h {
          if w.z > bestz {
            top, bestz := i, w.z;
          }
        }
        i := i + 1;
      }
      best := top;
      if top < 0 {
        NoHitNoPaint(windows[..], x, y);
        return -1, None, best;
      }
      HitIsLastPaintedIff(windows[..], x, y, top);
      return 0, Some(windows[top].id), best;
    }

    /** wm_draw_all: the slots in the order in which their windows are painted. */
    method DrawAll() returns (painted: seq<nat>)
      requires Valid()
      ensures painted == PaintOrder(windows[..])
    {
      hide PaintFrom;
      painted := [];
      var z := 0;
      while z <= MAX_WINDOWS
        invariant 0 <= z <= MAX_WINDOWS + 1 && PaintOrder(windows[..]) == painted + PaintFrom(windows[..], z, 0)
        decreases MAX_WINDOWS + 1 - z
      {
        var i := 0;
        while i < MAX_WINDOWS
          invariant 0 <= i <= MAX_WINDOWS && PaintOrder(windows[..]) == painted + PaintFrom(windows[..], z, i)
        {
          PaintSlot(windows[..], z, i);
          if windows[i].used && windows[i].z == z && windows[i].state != Minimized {
            painted := painted + [i];
          }
          i := i + 1;
        }
        PaintEnd(windows[..], z);
        z := z + 1;
      }
      PaintEnd(windows[..], z);
    }
  }
}
