/**
 The display: fragment reassembly, dispatch of complete updates, and what a session of updates leaves
 on the framebuffer. The two pointer decoders are parameters.
 */
module Displays {
  import opened Prelude
  import opened FastPath
  import opened Framebuffers
  import opened Bitmap

  datatype Cursor = Cursor(width: nat, height: nat, hotspotX: u16, hotspotY: u16, rgba: bytes)

  /** `decode_color_pointer` and `decode_new_pointer`. */
  datatype Pointers = Pointers(color: bytes -> Result<Cursor>, newer: bytes -> Result<Cursor>)

  /** What a user of the display can see. */
  datatype Screen = Screen(image: Image, cursor: Option<Cursor>, cursorPos: (u16, u16), dirty: bool) {
    ghost predicate Valid() {
      image.Valid()
    }
  }

  datatype State = State(screen: Screen, frag: bytes, fragCode: byte) {
    ghost predicate Valid() {
      screen.Valid()
    }
  }

  // ----- One complete update -----

  ghost predicate AnyDecodes(rects: seq<BitmapRect>) {
    exists k :: 0 <= k < |rects| && DecodedRect(rects[k]).Ok?
  }

  ghost function ShowBitmaps(s: Screen, rects: seq<BitmapRect>): (r: Screen)
    requires s.Valid()
    ensures r.Valid() && r.image.width == s.image.width && r.image.height == s.image.height
  {
    s.(image := PaintAll(s.image, rects), dirty := s.dirty || AnyDecodes(rects))
  }

  ghost function ShowCursor(s: Screen, decoded: Result<Cursor>): (Screen, Result<()>) {
    match decoded
    case Ok(cursor) => (s.(cursor := Some(cursor), dirty := true), Ok(()))
    case Err(e) => (s, Err(e))
  }

  ghost function Shown(p: Pointers, s: Screen, code: byte, data: bytes): (r: (Screen, Result<()>))
    requires s.Valid()
    ensures r.0.Valid() && r.0.image.width == s.image.width && r.0.image.height == s.image.height
  {
    if code == UPDATETYPE_BITMAP then
      match ParsedUpdate(data)
      case Err(e) => (s, Err(e))
      case Ok(rects) => (ShowBitmaps(s, rects), Ok(()))
    else if code == UPDATETYPE_COLOR then ShowCursor(s, p.color(data))
    else if code == UPDATETYPE_POINTER then ShowCursor(s, p.newer(data))
    else if code == UPDATETYPE_PTR_POSITION then
      if |data| >= 4 then (s.(cursorPos := (U16LeAt(data, 0), U16LeAt(data, 2)), dirty := true), Ok(()))
      else (s, Ok(()))
    else if code == UPDATETYPE_PTR_NULL then (s.(cursor := None, dirty := true), Ok(()))
    else (s, Ok(()))
  }

  // ----- Fragments -----

  /** The payload an update completes, if any, and what is pending after it. */
  function Completed(frag: bytes, fragCode: byte, u: FastPathUpdate): (Option<(byte, bytes)>, bytes, byte) {
    if u.fragmentation == FRAGMENT_SINGLE then (Some((u.code, u.data)), frag, fragCode)
    else if u.fragmentation == FRAGMENT_FIRST then (None, u.data, u.code)
    else if u.fragmentation == FRAGMENT_NEXT then (None, frag + u.data, fragCode)
    else if u.fragmentation == FRAGMENT_LAST then (Some((fragCode, frag + u.data)), [], fragCode)
    else (None, frag, fragCode)
  }

  ghost function Step(p: Pointers, s: State, u: FastPathUpdate): (r: (State, Result<()>))
    requires s.Valid()
    ensures r.0.Valid() && r.0.screen.image.width == s.screen.image.width
            && r.0.screen.image.height == s.screen.image.height
  {
    var (done, frag, fragCode) := Completed(s.frag, s.fragCode, u);
    match done
    case None => (State(s.screen, frag, fragCode), Ok(()))
    case Some((code, data)) =>
      var (screen, r) := Shown(p, s.screen, code, data);
      (State(screen, frag, fragCode), r)
  }

  /** Updates one after the other, stopping at the first that fails. */
  ghost function RunAll(p: Pointers, s: State, us: seq<FastPathUpdate>): (r: (State, Result<()>))
    requires s.Valid()
    ensures r.0.Valid() && r.0.screen.image.width == s.screen.image.width
            && r.0.screen.image.height == s.screen.image.height
    decreases |us|
  {
    if us == [] then (s, Ok(()))
    else
      var (s1, r) := Step(p, s, us[0]);
      if r.Err? then (s1, r) else RunAll(p, s1, us[1..])
  }

  // ----- Fragmentation is transparent -----

  /** Complete updates and middle fragments only: fragmentation 0 and 3. */
  ghost predicate Interleaved(mix: seq<FastPathUpdate>) {
    forall k :: 0 <= k < |mix| ==> mix[k].fragmentation == 0 || mix[k].fragmentation == 3
  }

  /** The complete updates among fragments. */
  function Singles(mix: seq<FastPathUpdate>): seq<FastPathUpdate> {
    if mix == [] then []
    else (if mix[0].fragmentation == 0 then [mix[0]] else []) + Singles(mix[1..])
  }

  /** The bytes of the middle fragments. */
  function Joined(mix: seq<FastPathUpdate>): bytes {
    if mix == [] then []
    else (if mix[0].fragmentation == 3 then mix[0].data else []) + Joined(mix[1..])
  }

  lemma RunCons(p: Pointers, s: State, u: FastPathUpdate, us: seq<FastPathUpdate>)
    requires s.Valid()
    ensures RunAll(p, s, [u] + us)
            == var (s1, r) := Step(p, s, u); if r.Err? then (s1, r) else RunAll(p, s1, us)
  {
    hide Step;
    assert ([u] + us)[1..] == us;
  }

  lemma {:induction false} MiddleIsTransparent(p: Pointers, s: State, t: State, mix: seq<FastPathUpdate>,
                                               last: FastPathUpdate)
    requires s.Valid() && t.Valid() && s.screen == t.screen && Interleaved(mix) && last.fragmentation == 1
    ensures var whole := FastPathUpdate(s.fragCode, 0, s.frag + Joined(mix) + last.data);
            var split, joined := RunAll(p, s, mix + [last]), RunAll(p, t, Singles(mix) + [whole]);
            && split.0.screen == joined.0.screen && split.1 == joined.1
            && (split.1.Ok? ==> split.0.frag == [])
    decreases |mix|
  {
    hide Shown, RunAll;
    var whole := FastPathUpdate(s.fragCode, 0, s.frag + Joined(mix) + last.data);
    if mix == [] {
      assert mix + [last] == [last] + [] && Singles(mix) + [whole] == [whole] + [];
      assert s.frag + [] + last.data == s.frag + last.data;
      RunCons(p, s, last, []);
      RunCons(p, t, whole, []);
      RunNone(p, Step(p, s, last).0);
      RunNone(p, Step(p, t, whole).0);
    } else {
      var u, rest := mix[0], mix[1..];
      var (s1, r) := Step(p, s, u);
      assert mix + [last] == [u] + (rest + [last]);
      RunCons(p, s, u, rest + [last]);
      if u.fragmentation == 3 {
        assert s.frag + Joined(mix) + last.data == s1.frag + Joined(rest) + last.data;
        assert Singles(mix) + [whole] == Singles(rest) + [whole];
        MiddleIsTransparent(p, s1, t, rest, last);
      } else {
        var (t1, _) := Step(p, t, u);
        assert s.frag + Joined(mix) + last.data == s1.frag + Joined(rest) + last.data;
        assert Singles(mix) + [whole] == [u] + (Singles(rest) + [whole]);
        RunCons(p, t, u, Singles(rest) + [whole]);
        if r.Ok? {
          MiddleIsTransparent(p, s1, t1, rest, last);
        }
      }
    }
  }

  lemma RunNone(p: Pointers, s: State)
    requires s.Valid()
    ensures RunAll(p, s, []) == (s, Ok(()))
  {
  }

  /**
   Splitting a payload into FIRST, any number of NEXT and LAST shows the same screen and returns the
   same result as the whole payload in one SINGLE update where LAST stands, whatever complete updates
   come in between and whatever fragments were pending before.
   */
  lemma FragmentationIsTransparent(p: Pointers, s: State, first: FastPathUpdate, mix: seq<FastPathUpdate>,
                                   last: FastPathUpdate)
    requires s.Valid() && Interleaved(mix)
    requires first.fragmentation == 2 && last.fragmentation == 1
    ensures var whole := FastPathUpdate(first.code, 0, first.data + Joined(mix) + last.data);
            var split, joined := RunAll(p, s, [first] + mix + [last]), RunAll(p, s, Singles(mix) + [whole]);
            && split.0.screen == joined.0.screen && split.1 == joined.1
            && (split.1.Ok? ==> split.0.frag == [])
  {
    hide RunAll, Shown;
    assert [first] + mix + [last] == [first] + (mix + [last]);
    RunCons(p, s, first, mix + [last]);
    MiddleIsTransparent(p, Step(p, s, first).0, s, mix, last);
  }

  // ----- What a session paints -----

  /** Lists of updates one after the other, each stopping at its first error; the display keeps what it has then. */
  ghost function RunBatches(p: Pointers, s: State, batches: seq<seq<FastPathUpdate>>): (r: State)
    requires s.Valid()
    ensures r.Valid() && r.screen.image.width == s.screen.image.width && r.screen.image.height == s.screen.image.height
    decreases |batches|
  {
    if batches == [] then s else RunBatches(p, RunAll(p, s, batches[0]).0, batches[1..])
  }

  /** A payload that ends its list of updates with an error. */
  predicate Refused(p: Pointers, code: byte, data: bytes) {
    || (code == UPDATETYPE_BITMAP && ParsedUpdate(data).Err?)
    || (code == UPDATETYPE_COLOR && p.color(data).Err?)
    || (code == UPDATETYPE_POINTER && p.newer(data).Err?)
  }

  /** The payloads that updates complete before the first refused one, and what is pending then. */
  function BatchPayloads(p: Pointers, frag: bytes, fragCode: byte, us: seq<FastPathUpdate>)
    : (seq<(byte, bytes)>, bytes, byte)
    decreases |us|
  {
    if us == [] then ([], frag, fragCode)
    else
      var (done, frag', code') := Completed(frag, fragCode, us[0]);
      if done.Some? && Refused(p, done.value.0, done.value.1) then ([], frag', code')
      else
        var (payloads, frag'', code'') := BatchPayloads(p, frag', code', us[1..]);
        ((if done.Some? then [done.value] else []) + payloads, frag'', code'')
  }

  /** The payloads a session completes and does not refuse; fragments may span its lists of updates. */
  function SessionPayloads(p: Pointers, frag: bytes, fragCode: byte, batches: seq<seq<FastPathUpdate>>)
    : seq<(byte, bytes)>
    decreases |batches|
  {
    if batches == [] then []
    else
      var (payloads, frag', code') := BatchPayloads(p, frag, fragCode, batches[0]);
      payloads + SessionPayloads(p, frag', code', batches[1..])
  }

  /** Payloads shown one after the other. */
  ghost function ShownAll(p: Pointers, s: Screen, payloads: seq<(byte, bytes)>): (r: Screen)
    requires s.Valid()
    ensures r.Valid() && r.image.width == s.image.width && r.image.height == s.image.height
  {
    if payloads == [] then s
    else
      var n := |payloads| - 1;
      Shown(p, ShownAll(p, s, payloads[..n]), payloads[n].0, payloads[n].1).0
  }

  lemma {:induction false} ShownAllAppend(p: Pointers, s: Screen, a: seq<(byte, bytes)>, b: seq<(byte, bytes)>)
    requires s.Valid()
    ensures ShownAll(p, s, a + b) == ShownAll(p, ShownAll(p, s, a), b)
    decreases |b|
  {
    hide Shown;
    if b == [] {
      assert a + b == a;
    } else {
      ShownAllAppend(p, s, a, b[..|b| - 1]);
      assert (a + b)[..|a + b| - 1] == a + b[..|b| - 1];
    }
  }

  lemma OneShown(p: Pointers, s: Screen, payload: (byte, bytes))
    requires s.Valid()
    ensures ShownAll(p, s, [payload]) == Shown(p, s, payload.0, payload.1).0 && ShownAll(p, s, []) == s
  {
    hide Shown;
    assert [payload][..0] == [];
  }

  lemma RefusedShowsNothing(p: Pointers, s: Screen, code: byte, data: bytes)
    requires s.Valid()
    ensures Shown(p, s, code, data).1.Err? <==> Refused(p, code, data)
    ensures Refused(p, code, data) ==> Shown(p, s, code, data).0 == s
  {
    hide ParsedUpdate;
  }

  /** A list of updates shows its payloads up to the first error, which itself shows nothing. */
  lemma {:induction false} BatchShows(p: Pointers, s: State, us: seq<FastPathUpdate>)
    requires s.Valid()
    ensures var (payloads, frag, fragCode) := BatchPayloads(p, s.frag, s.fragCode, us);
            RunAll(p, s, us).0 == State(ShownAll(p, s.screen, payloads), frag, fragCode)
    decreases |us|
  {
    hide Shown, Refused, Completed, ShownAll;
    OneShown(p, s.screen, (0, []));
    if us != [] {
      var (done, frag, fragCode) := Completed(s.frag, s.fragCode, us[0]);
      var (s1, r) := Step(p, s, us[0]);
      if done.Some? {
        RefusedShowsNothing(p, s.screen, done.value.0, done.value.1);
        OneShown(p, s.screen, done.value);
      }
      if r.Ok? {
        BatchShows(p, s1, us[1..]);
        var mine := if done.Some? then [done.value] else [];
        ShownAllAppend(p, s.screen, mine, BatchPayloads(p, frag, fragCode, us[1..]).0);
      }
    }
  }

  /** Any session, errors on the way included, shows exactly the payloads it completed and did not refuse, in order. */
  lemma {:induction false} SessionShows(p: Pointers, s: State, batches: seq<seq<FastPathUpdate>>)
    requires s.Valid()
    ensures RunBatches(p, s, batches).screen == ShownAll(p, s.screen, SessionPayloads(p, s.frag, s.fragCode, batches))
    decreases |batches|
  {
    hide RunAll, ShownAll, BatchPayloads;
    OneShown(p, s.screen, (0, []));
    if batches != [] {
      var (payloads, frag, fragCode) := BatchPayloads(p, s.frag, s.fragCode, batches[0]);
      BatchShows(p, s, batches[0]);
      SessionShows(p, RunAll(p, s, batches[0]).0, batches[1..]);
      ShownAllAppend(p, s.screen, payloads, SessionPayloads(p, frag, fragCode, batches[1..]));
    }
  }

  // ----- Pixels -----

  /** The bitmap rectangles in these payloads: those of type 1. */
  function RectsOfPayloads(payloads: seq<(byte, bytes)>): seq<BitmapRect> {
    if payloads == [] then []
    else
      var n := |payloads| - 1;
      RectsOfPayloads(payloads[..n])
      + if payloads[n].0 == 1 && ParsedUpdate(payloads[n].1).Ok? then ParsedUpdate(payloads[n].1).value else []
  }

  lemma {:induction false} ShownAllPaints(p: Pointers, s: Screen, payloads: seq<(byte, bytes)>)
    requires s.Valid()
    ensures ShownAll(p, s, payloads).image == PaintAll(s.image, RectsOfPayloads(payloads))
    decreases |payloads|
  {
    hide ParsedUpdate, PaintAll;
    PaintNothing(s.image);
    if payloads != [] {
      var n := |payloads| - 1;
      ShownAllPaints(p, s, payloads[..n]);
      var last := payloads[n];
      var rects := if last.0 == 1 && ParsedUpdate(last.1).Ok? then ParsedUpdate(last.1).value else [];
      PaintAllAppend(s.image, RectsOfPayloads(payloads[..n]), rects);
      PaintNothing(PaintAll(s.image, RectsOfPayloads(payloads[..n])));
    }
  }

  /** Any session has painted exactly the rectangles of its payloads, in order. */
  lemma SessionPaints(p: Pointers, s: State, batches: seq<seq<FastPathUpdate>>)
    requires s.Valid()
    ensures RunBatches(p, s, batches).screen.image
            == PaintAll(s.screen.image, RectsOfPayloads(SessionPayloads(p, s.frag, s.fragCode, batches)))
  {
    hide RunBatches, SessionPayloads, PaintAll, ShownAll;
    SessionShows(p, s, batches);
    ShownAllPaints(p, s.screen, SessionPayloads(p, s.frag, s.fragCode, batches));
  }

  lemma PaintNothing(img: Image)
    requires img.Valid()
    ensures PaintAll(img, []) == img
  {
  }

  /**
   After any session every framebuffer pixel has the color of the last decodable rectangle that covers it, or
   its old color when there is none.
   */
  lemma SessionPixel(p: Pointers, s: State, batches: seq<seq<FastPathUpdate>>, x: nat, y: nat)
    requires s.Valid() && x < s.screen.image.width && y < s.screen.image.height
    ensures var rects := RectsOfPayloads(SessionPayloads(p, s.frag, s.fragCode, batches));
            Pixel(RunBatches(p, s, batches).screen.image, x, y)
            == match LastPainter(rects, x, y)
               case Some(k) => ColorAt(rects[k], x, y)
               case None => Pixel(s.screen.image, x, y)
  {
    hide RunBatches, SessionPayloads, RectsOfPayloads, PaintAll, Paints, ColorAt, Pixel;
    SessionPaints(p, s, batches);
    LastRectWins(s.screen.image, RectsOfPayloads(SessionPayloads(p, s.frag, s.fragCode, batches)), x, y);
  }

  // ----- Cursor -----

  /** Color pointer, new pointer and hidden pointer: types 9, 11 and 5. */
  predicate SetsCursor(payload: (byte, bytes)) {
    payload.0 == 9 || payload.0 == 11 || payload.0 == 5
  }

  /** A pointer position: type 8, with both coordinates there. */
  predicate MovesCursor(payload: (byte, bytes)) {
    payload.0 == 8 && |payload.1| >= 4
  }

  /** Bitmaps, one of which at least decodes. */
  predicate ShowsBitmap(payload: (byte, bytes)) {
    && payload.0 == 1 && ParsedUpdate(payload.1).Ok?
    && var rects := ParsedUpdate(payload.1).value; exists k :: 0 <= k < |rects| && DecodedRect(rects[k]).Ok?
  }

  /** The cursor a payload leaves: none for a hidden one. */
  ghost predicate CursorOf(p: Pointers, payload: (byte, bytes), cursor: Option<Cursor>) {
    match cursor
    case None => payload.0 == 5
    case Some(c) => (payload.0 == 9 && p.color(payload.1) == Ok(c)) || (payload.0 == 11 && p.newer(payload.1) == Ok(c))
  }

  ghost predicate NoneRefused(p: Pointers, payloads: seq<(byte, bytes)>) {
    forall k :: 0 <= k < |payloads| ==> !Refused(p, payloads[k].0, payloads[k].1)
  }

  lemma {:induction false} BatchNotRefused(p: Pointers, frag: bytes, fragCode: byte, us: seq<FastPathUpdate>)
    ensures NoneRefused(p, BatchPayloads(p, frag, fragCode, us).0)
    decreases |us|
  {
    hide Refused, Completed;
    if us != [] {
      var (done, frag', code') := Completed(frag, fragCode, us[0]);
      BatchNotRefused(p, frag', code', us[1..]);
    }
  }

  lemma {:induction false} SessionNotRefused(p: Pointers, frag: bytes, fragCode: byte,
                                             batches: seq<seq<FastPathUpdate>>)
    ensures NoneRefused(p, SessionPayloads(p, frag, fragCode, batches))
    decreases |batches|
  {
    hide Refused, BatchPayloads;
    if batches != [] {
      var (payloads, frag', code') := BatchPayloads(p, frag, fragCode, batches[0]);
      BatchNotRefused(p, frag, fragCode, batches[0]);
      SessionNotRefused(p, frag', code', batches[1..]);
    }
  }

  /** The k-th payload does it, and no later one. */
  ghost predicate LastCursor(payloads: seq<(byte, bytes)>, k: nat) {
    k < |payloads| && SetsCursor(payloads[k]) && forall j :: k < j < |payloads| ==> !SetsCursor(payloads[j])
  }

  ghost predicate LastMove(payloads: seq<(byte, bytes)>, k: nat) {
    k < |payloads| && MovesCursor(payloads[k]) && forall j :: k < j < |payloads| ==> !MovesCursor(payloads[j])
  }

  function PositionIn(data: bytes): (u16, u16)
    requires |data| >= 4
  {
    (data[0] as int + 0x100 * data[1] as int, data[2] as int + 0x100 * data[3] as int)
  }

  ghost predicate CursorLaw(p: Pointers, before: Option<Cursor>, payloads: seq<(byte, bytes)>, after: Option<Cursor>) {
    && (forall k: nat :: LastCursor(payloads, k) ==> CursorOf(p, payloads[k], after))
    && ((forall k :: 0 <= k < |payloads| ==> !SetsCursor(payloads[k])) ==> after == before)
  }

  ghost predicate PositionLaw(before: (u16, u16), payloads: seq<(byte, bytes)>, after: (u16, u16)) {
    && (forall k: nat :: LastMove(payloads, k) ==> after == PositionIn(payloads[k].1))
    && ((forall k :: 0 <= k < |payloads| ==> !MovesCursor(payloads[k])) ==> after == before)
  }

  /** A payload that changes something on the screen. */
  predicate Changes(payload: (byte, bytes)) {
    SetsCursor(payload) || MovesCursor(payload) || ShowsBitmap(payload)
  }

  ghost predicate DirtyLaw(before: bool, payloads: seq<(byte, bytes)>, after: bool) {
    after <==> before || exists k :: 0 <= k < |payloads| && Changes(payloads[k])
  }

  ghost predicate ScreenLaw(p: Pointers, before: Screen, payloads: seq<(byte, bytes)>, after: Screen) {
    && CursorLaw(p, before.cursor, payloads, after.cursor)
    && PositionLaw(before.cursorPos, payloads, after.cursorPos)
    && DirtyLaw(before.dirty, payloads, after.dirty)
  }

  lemma ShownChanges(p: Pointers, s: Screen, payload: (byte, bytes))
    requires s.Valid() && !Refused(p, payload.0, payload.1)
    ensures var after := Shown(p, s, payload.0, payload.1).0;
            && (if SetsCursor(payload) then CursorOf(p, payload, after.cursor) else after.cursor == s.cursor)
            && after.cursorPos == (if MovesCursor(payload) then PositionIn(payload.1) else s.cursorPos)
            && (after.dirty <==> s.dirty || Changes(payload))
  {
    hide ParsedUpdate, DecodedRect, PaintAll;
  }

  lemma {:induction false} ShownAllCursor(p: Pointers, s: Screen, payloads: seq<(byte, bytes)>)
    requires s.Valid() && NoneRefused(p, payloads)
    ensures ScreenLaw(p, s, payloads, ShownAll(p, s, payloads))
    decreases |payloads|
  {
    if payloads == [] {
      NothingShown(p, s);
    } else {
      hide Shown, Refused, ScreenLaw;
      var n := |payloads| - 1;
      var init, last := payloads[..n], payloads[n];
      ShownAllCursor(p, s, init);
      assert payloads == init + [last];
      LawNext(p, s, init, last, ShownAll(p, s, init));
    }
  }

  lemma NothingShown(p: Pointers, s: Screen)
    ensures ScreenLaw(p, s, [], s)
  {
  }

  lemma LawNext(p: Pointers, before: Screen, init: seq<(byte, bytes)>, last: (byte, bytes), mid: Screen)
    requires mid.Valid() && ScreenLaw(p, before, init, mid) && !Refused(p, last.0, last.1)
    ensures ScreenLaw(p, before, init + [last], Shown(p, mid, last.0, last.1).0)
  {
    hide Shown, Refused, CursorLaw, PositionLaw, DirtyLaw, SetsCursor, MovesCursor, CursorOf, Changes, PositionIn;
    var after := Shown(p, mid, last.0, last.1).0;
    ShownChanges(p, mid, last);
    CursorNext(p, before.cursor, init, last, mid.cursor, after.cursor);
    PositionNext(before.cursorPos, init, last, mid.cursorPos, after.cursorPos);
    DirtyNext(before.dirty, init, last, mid.dirty, after.dirty);
  }

  lemma CursorNext(p: Pointers, before: Option<Cursor>, init: seq<(byte, bytes)>, last: (byte, bytes),
                   mid: Option<Cursor>, after: Option<Cursor>)
    requires CursorLaw(p, before, init, mid)
    requires if SetsCursor(last) then CursorOf(p, last, after) else after == mid
    ensures CursorLaw(p, before, init + [last], after)
  {
    hide SetsCursor, CursorOf;
    var all := init + [last];
    forall k: nat | LastCursor(all, k)
      ensures CursorOf(p, all[k], after)
    {
      if k < |init| {
        assert !SetsCursor(all[|init|]);
        assert forall j :: k < j < |init| ==> init[j] == all[j];
        assert LastCursor(init, k);
      }
    }
    if forall k :: 0 <= k < |all| ==> !SetsCursor(all[k]) {
      assert !SetsCursor(all[|init|]);
      assert forall k :: 0 <= k < |init| ==> init[k] == all[k];
    }
  }

  lemma PositionNext(before: (u16, u16), init: seq<(byte, bytes)>, last: (byte, bytes), mid: (u16, u16),
                     after: (u16, u16))
    requires PositionLaw(before, init, mid)
    requires after == if MovesCursor(last) then PositionIn(last.1) else mid
    ensures PositionLaw(before, init + [last], after)
  {
    hide PositionIn;
    var all := init + [last];
    forall k: nat | LastMove(all, k)
      ensures after == PositionIn(all[k].1)
    {
      if k < |init| {
        assert !MovesCursor(all[|init|]);
        assert forall j :: k < j < |init| ==> init[j] == all[j];
        assert LastMove(init, k);
      }
    }
    if forall k :: 0 <= k < |all| ==> !MovesCursor(all[k]) {
      assert !MovesCursor(all[|init|]);
      assert forall k :: 0 <= k < |init| ==> init[k] == all[k];
    }
  }

  lemma DirtyNext(before: bool, init: seq<(byte, bytes)>, last: (byte, bytes), mid: bool, after: bool)
    requires DirtyLaw(before, init, mid) && (after <==> mid || Changes(last))
    ensures DirtyLaw(before, init + [last], after)
  {
    hide Changes;
    var all := init + [last];
    if k :| 0 <= k < |init| && Changes(init[k]) {
      assert Changes(all[k]);
    }
    if Changes(last) {
      assert Changes(all[|init|]);
    }
    if k :| 0 <= k < |all| && Changes(all[k]) {
      assert k < |init| ==> Changes(init[k]);
    }
  }

  /**
   After any session the cursor is that of the last pointer payload, hidden if that hides it; its position is the last
   one sent; and the display is dirty exactly if it was, or some payload changed cursor, position or pixels.
   */
  lemma SessionCursor(p: Pointers, s: State, batches: seq<seq<FastPathUpdate>>)
    requires s.Valid()
    ensures ScreenLaw(p, s.screen, SessionPayloads(p, s.frag, s.fragCode, batches), RunBatches(p, s, batches).screen)
  {
    hide RunBatches, SessionPayloads, ShownAll, ScreenLaw, NoneRefused;
    SessionShows(p, s, batches);
    SessionNotRefused(p, s.frag, s.fragCode, batches);
    ShownAllCursor(p, s.screen, SessionPayloads(p, s.frag, s.fragCode, batches));
  }

  // ----- The object -----

  /** Payloads the bitmap decoders can take. */
  ghost predicate SafePayload(code: byte, data: bytes) {
    code == UPDATETYPE_BITMAP && ParsedUpdate(data).Ok? ==>
      var rects := ParsedUpdate(data).value; forall k :: 0 <= k < |rects| ==> Safe(rects[k])
  }

  ghost predicate SafeUpdate(frag: bytes, fragCode: byte, u: FastPathUpdate) {
    && (u.fragmentation == FRAGMENT_SINGLE ==> SafePayload(u.code, u.data))
    && (u.fragmentation == FRAGMENT_LAST ==> SafePayload(fragCode, frag + u.data))
  }

  /** Every payload completed along the way is safe. */
  ghost predicate SafeSession(p: Pointers, s: State, us: seq<FastPathUpdate>)
    requires s.Valid()
    decreases |us|
  {
    us == [] || (SafeUpdate(s.frag, s.fragCode, us[0]) && SafeSession(p, Step(p, s, us[0]).0, us[1..]))
  }

  class Display {
    const framebuffer: Framebuffer
    const pointers: Pointers
    var cursor: Option<Cursor>
    var cursorPos: (u16, u16)
    var dirty: bool
    var frag: bytes
    var fragCode: byte

    ghost predicate Valid() {
      framebuffer.Valid()
    }

    ghost function View(): (s: State)
      requires Valid()
      reads this, framebuffer.pixels
      ensures s.Valid()
    {
      State(Screen(framebuffer.View(), cursor, cursorPos, dirty), frag, fragCode)
    }

    constructor (width: nat, height: nat, pointers: Pointers)
      ensures Valid() && fresh(framebuffer.pixels) && this.pointers == pointers
      ensures View() == State(Screen(Blank(width, height), None, (0, 0), false), [], 0)
    {
      var fb := new Framebuffer(width, height);
      framebuffer, this.pointers := fb, pointers;
      cursor, cursorPos, dirty, frag, fragCode := None, (0, 0), false, [], 0;
    }

    /** Bitmap rectangles one by one; one that fails is skipped. */
    method PaintRects(rects: seq<BitmapRect>)
      requires Valid() && forall k :: 0 <= k < |rects| ==> Safe(rects[k])
      modifies this`dirty, framebuffer.pixels
      ensures View() == old(View()).(screen := ShowBitmaps(old(View()).screen, rects))
    {
      hide PaintRect, DecodedRect, Safe;
      ghost var before := framebuffer.View();
      PaintNothing(before);
      for k := 0 to |rects|
        invariant framebuffer.View() == PaintAll(before, rects[..k])
        invariant dirty == (old(dirty) || AnyDecodes(rects[..k]))
      {
        var r := Bitmap.Apply(framebuffer, rects[k]);
        if r.Ok? {
          dirty := true;
        }
        assert rects[..k + 1][..k] == rects[..k];
        AnyDecodesNext(rects, k);
      }
      assert rects[..|rects|] == rects;
    }

    method Process(code: byte, data: bytes) returns (r: Result<()>)
      requires Valid() && SafePayload(code, data)
      modifies this`cursor, this`cursorPos, this`dirty, framebuffer.pixels
      ensures var (screen, result) := Shown(pointers, old(View()).screen, code, data);
              View() == old(View()).(screen := screen) && r == result
    {
      hide ParsedUpdate, ShowBitmaps;
      if code == UPDATETYPE_BITMAP {
        var rects := ParseBitmapUpdate(data);
        if rects.Err? {
          return Err(rects.error);
        }
        PaintRects(rects.value);
      } else if code == UPDATETYPE_COLOR {
        var decoded := pointers.color(data);
        if decoded.Err? {
          return Err(decoded.error);
        }
        cursor := Some(decoded.value);
        dirty := true;
      } else if code == UPDATETYPE_POINTER {
        var decoded := pointers.newer(data);
        if decoded.Err? {
          return Err(decoded.error);
        }
        cursor := Some(decoded.value);
        dirty := true;
      } else if code == UPDATETYPE_PTR_POSITION {
        if |data| >= 4 {
          cursorPos := (U16LeAt(data, 0), U16LeAt(data, 2));
          dirty := true;
        }
      } else if code == UPDATETYPE_PTR_NULL {
        cursor := None;
        dirty := true;
      }
      r := Ok(());
    }

    /** Apply one fast-path update, reassembling fragmented ones first. */
    method Apply(u: FastPathUpdate) returns (r: Result<()>)
      requires Valid() && SafeUpdate(frag, fragCode, u)
      modifies this, framebuffer.pixels
      ensures (View(), r) == Step(pointers, old(View()), u)
    {
      hide Shown;
      r := Ok(());
      if u.fragmentation == FRAGMENT_SINGLE {
        r := Process(u.code, u.data);
      } else if u.fragmentation == FRAGMENT_FIRST {
        frag := [];
        fragCode := u.code;
        frag := frag + u.data;
        assert frag == u.data;
      } else if u.fragmentation == FRAGMENT_NEXT {
        frag := frag + u.data;
      } else if u.fragmentation == FRAGMENT_LAST {
        frag := frag + u.data;
        var code, data := fragCode, frag;
        frag := [];
        r := Process(code, data);
      }
    }

    method ApplyAll(updates: seq<FastPathUpdate>) returns (r: Result<()>)
      requires Valid() && SafeSession(pointers, View(), updates)
      modifies this, framebuffer.pixels
      ensures (View(), r) == RunAll(pointers, old(View()), updates)
    {
      hide Step, SafeUpdate;
      for k := 0 to |updates|
        invariant SafeSession(pointers, View(), updates[k..])
        invariant RunAll(pointers, old(View()), updates) == RunAll(pointers, View(), updates[k..])
      {
        assert updates[k..][1..] == updates[k + 1..] && updates[k..][0] == updates[k];
        r := Apply(updates[k]);
        if r.Err? {
          return;
        }
      }
      r := Ok(());
    }
  }

  lemma AnyDecodesNext(rects: seq<BitmapRect>, k: nat)
    requires k < |rects|
    ensures AnyDecodes(rects[..k + 1]) == (AnyDecodes(rects[..k]) || DecodedRect(rects[k]).Ok?)
  {
    hide DecodedRect;
    if AnyDecodes(rects[..k]) {
      var j :| 0 <= j < k && DecodedRect(rects[..k][j]).Ok?;
      assert DecodedRect(rects[..k + 1][j]).Ok?;
    }
    if DecodedRect(rects[k]).Ok? {
      assert DecodedRect(rects[..k + 1][k]).Ok?;
    }
    if AnyDecodes(rects[..k + 1]) {
      var j :| 0 <= j < k + 1 && DecodedRect(rects[..k + 1][j]).Ok?;
      if j < k {
        assert DecodedRect(rects[..k][j]).Ok?;
      }
    }
  }
}
