/** The window of pal/pal_win32.c: its size and scroll offset over every run of events, with the real feed inside. */
module Window {
  import opened CTypes
  import opened Raster
  import opened Font
  import opened Draw
  import opened Feed
  import opened Paint
  import opened PaintLaws
  import opened Chrome
  import opened Screen

  datatype Bar = LineUp | LineDown | PageUp | PageDown | ToTop | ToBottom | Thumb(pos: int) | OtherBar

  datatype Key = Up | Down | Prior | Next | Home | End | OtherKey

  /** The messages wndproc handles; `ok` says whether the new backbuffer could be made. */
  datatype Event =
    | Create(cw: int, ch: int, ok: bool)
    | Size(sw: nat, sh: nat, ok: bool)
    | VScroll(code: Bar)
    | KeyDown(key: Key)
    | Wheel(hi: int)
    | Click(y: int)
    | Destroy
    | Other

  /** The range, page and thumb position last given to the system's vertical scrollbar. */
  datatype Scrollbar = Scrollbar(max: int, page: int, pos: int)

  /**
   * The fields of PalWindow that events change, and the posts; `created` once the window pointer is set, `buffer` while
   * there is a backbuffer to paint on.
   */
  datatype State = State(created: bool, buffer: bool, w: int, h: int, scroll: int, posts: seq<Post>, bar: Scrollbar)

  const CHROME := BAR_H + NAV_H

  function Start(posts: seq<Post>): (s: State) {
    State(false, false, 0, 0, 0, posts, Scrollbar(0, 0, 0))
  }

  /** max_scroll */
  function MaxScroll(cs: Charset, s: State): (m: int)
    ensures m >= 0
  {
    var view := if s.h - CHROME < 0 then 0 else s.h - CHROME;
    var m := ContentHeight(cs, s.w, s.posts) - view;
    if m > 0 then m else 0
  }

  function Limited(y: int, m: int): (z: int) {
    var a := if y > m then m else y;
    if a < 0 then 0 else a
  }

  /** The clamp of scroll_by and of the scrollbar arm. */
  function ScrollTo(cs: Charset, s: State, y: int): (t: State) {
    var z := Limited(y, MaxScroll(cs, s));
    if z == s.scroll then s else s.(scroll := z, bar := s.bar.(pos := z))
  }

  /** sync_scrollbar */
  function Synced(cs: Charset, s: State): (t: State) {
    var content := ContentHeight(cs, s.w, s.posts);
    var z := Limited(s.scroll, MaxScroll(cs, s));
    s.(scroll := z, bar := Scrollbar(if content > 0 then content - 1 else 0, AtLeastOne(s.h - CHROME), z))
  }

  function AtLeastOne(n: int): (m: int) {
    if n < 1 then 1 else n
  }

  /** create_backbuffer, then sync_scrollbar; a refused backbuffer leaves the size alone, but the old one is gone. */
  function Resized(cs: Charset, s: State, w: int, h: int, ok: bool): (t: State) {
    var r := if ok then s.(buffer := true, w := AtLeastOne(w), h := AtLeastOne(h)) else s.(buffer := false);
    Synced(cs, r)
  }

  function Page(s: State): (p: int) {
    if s.h - CHROME - 20 < 40 then 40 else s.h - CHROME - 20
  }

  /** Where a scrollbar code asks to go. */
  function BarTarget(cs: Charset, s: State, code: Bar): (y: int) {
    match code
    case LineUp => s.scroll - 40
    case LineDown => s.scroll + 40
    case PageUp => s.scroll - Page(s)
    case PageDown => s.scroll + Page(s)
    case ToTop => 0
    case ToBottom => MaxScroll(cs, s)
    case Thumb(pos) => pos
    case OtherBar => s.scroll
  }

  const FAR := 0x4000_0000

  /** By how much a key scrolls; other keys do not. */
  function KeyDelta(s: State, key: Key): (d: Option<int>) {
    match key
    case Up => Some(-40)
    case Down => Some(40)
    case Prior => Some(-Page(s))
    case Next => Some(Page(s))
    case Home => Some(-FAR)
    case End => Some(FAR)
    case OtherKey => None
  }

  /** By how much the wheel scrolls: 48 pixels a whole notch of 120, down for a negative turn. */
  function WheelDelta(hi: int): (d: int) {
    -TruncDiv(hi, 120) * 48
  }

  /** A click toggles the card under it and, when it hit one, clamps the scroll offset again. */
  function AfterClick(cs: Charset, s: State, y: int): (t: State) {
    if Owner(cs, s.w, s.posts, ContentRow(y, s.scroll)).Some?
    then Synced(cs, s.(posts := Clicked(cs, s.w, s.posts, y, s.scroll)))
    else s
  }

  /** What one event does; before the window is created only its creation counts. */
  function Step(cs: Charset, s: State, e: Event): (t: State) {
    if e.Create? then Resized(cs, s.(created := true), e.cw, e.ch, e.ok)
    else if !s.created then s
    else match e
      case Size(w, h, ok) => Resized(cs, s, w, h, ok)
      case VScroll(code) => ScrollTo(cs, s, BarTarget(cs, s, code))
      case KeyDown(key) =>
        var d := KeyDelta(s, key);
        if d.Some? then ScrollTo(cs, s, s.scroll + d.value) else s
      case Wheel(hi) => ScrollTo(cs, s, s.scroll + WheelDelta(hi))
      case Click(y) => AfterClick(cs, s, y)
      case Destroy => s.(buffer := false)
      case Other => s
  }

  function Run(cs: Charset, s: State, es: seq<Event>): (t: State)
    decreases |es|
  {
    if es == [] then s else Step(cs, Run(cs, s, es[..|es| - 1]), es[|es| - 1])
  }

  // ---- What every run keeps ----------------------------------------------

  /** Clamped, with the system's scrollbar showing the current content, viewport and offset. */
  predicate Settled(cs: Charset, s: State) {
    && 0 <= s.scroll <= MaxScroll(cs, s)
    && s.w >= 0 && (s.buffer ==> s.w >= 1 && s.h >= 1)
    && s.bar.pos == s.scroll
    && s.bar.max == ContentHeight(cs, s.w, s.posts) - 1
    && s.bar.page == AtLeastOne(s.h - CHROME)
  }

  predicate Good(cs: Charset, s: State) {
    if s.created then Settled(cs, s) else s == Start(s.posts)
  }

  /** Two posts that differ at most in being expanded. */
  predicate SamePost(p: Post, q: Post) {
    p.(expanded := q.expanded) == q
  }

  predicate SamePosts(ps: seq<Post>, qs: seq<Post>) {
    |ps| == |qs| && forall i :: 0 <= i < |ps| ==> SamePost(ps[i], qs[i])
  }

  /** One event leaves a settled state settled, and changes nothing of a post but its expanded flag. */
  lemma StepKeeps(cs: Charset, s: State, e: Event)
    requires Good(cs, s)
    ensures Good(cs, Step(cs, s, e)) && SamePosts(s.posts, Step(cs, s, e).posts)
  {
    hide ContentHeight, Owner, OnCard;
    var t := Step(cs, s, e);
    ContentNotEmpty(cs, t.w, t.posts);
  }

  lemma StartIsGood(cs: Charset, posts: seq<Post>)
    ensures Good(cs, Start(posts))
  {
  }

  lemma GoodWidth(cs: Charset, s: State)
    requires s.created && Good(cs, s)
    ensures s.w >= 0
  {
  }

  /** After every run of events the offset lies in range and the scrollbar agrees with the content. */
  lemma {:induction false} EveryRunIsGood(cs: Charset, posts: seq<Post>, es: seq<Event>)
    ensures Good(cs, Run(cs, Start(posts), es)) && SamePosts(posts, Run(cs, Start(posts), es).posts)
    decreases |es|
  {
    hide Good, Step;
    StartIsGood(cs, posts);
    if es != [] {
      var n := |es| - 1;
      EveryRunIsGood(cs, posts, es[..n]);
      StepKeeps(cs, Run(cs, Start(posts), es[..n]), es[n]);
    }
  }

  /** The furthest position the system lets the thumb reach is the furthest the code scrolls, except in a window
      no higher than the bars, where it is one row short. */
  lemma ThumbReaches(cs: Charset, s: State)
    requires s.created && Good(cs, s)
    ensures
      var m := s.bar.max - s.bar.page + 1;
      (if m < 0 then 0 else m) == MaxScroll(cs, s) <==> s.h > CHROME
  {
    hide ContentHeight;
    ContentNotEmpty(cs, s.w, s.posts);
  }

  /** The offset in range nearest to where an event asks to go; nothing else changes but the thumb, which follows. */
  predicate Moved(cs: Charset, s: State, t: State, target: int) {
    && 0 <= t.scroll <= MaxScroll(cs, s)
    && (t.scroll == target || (target < 0 && t.scroll == 0)
        || (target > MaxScroll(cs, s) && t.scroll == MaxScroll(cs, s)))
    && t == s.(scroll := t.scroll, bar := s.bar.(pos := t.scroll))
  }

  /** Lines are 40 rows; a page leaves 20 rows of a viewport of 60 or more in sight, and is 40 rows of a lower one. */
  lemma ScrollsAsNamed(cs: Charset, s: State, pos: int)
    requires s.created && Good(cs, s)
    ensures
      var page := if s.h - 58 >= 60 then s.h - 58 - 20 else 40;
      && Moved(cs, s, Step(cs, s, KeyDown(Up)), s.scroll - 40)
      && Moved(cs, s, Step(cs, s, KeyDown(Down)), s.scroll + 40)
      && Moved(cs, s, Step(cs, s, KeyDown(Prior)), s.scroll - page)
      && Moved(cs, s, Step(cs, s, KeyDown(Next)), s.scroll + page)
      && Moved(cs, s, Step(cs, s, KeyDown(Home)), s.scroll - 0x4000_0000)
      && Moved(cs, s, Step(cs, s, KeyDown(End)), s.scroll + 0x4000_0000)
      && Moved(cs, s, Step(cs, s, VScroll(LineUp)), s.scroll - 40)
      && Moved(cs, s, Step(cs, s, VScroll(LineDown)), s.scroll + 40)
      && Moved(cs, s, Step(cs, s, VScroll(PageUp)), s.scroll - page)
      && Moved(cs, s, Step(cs, s, VScroll(PageDown)), s.scroll + page)
      && Moved(cs, s, Step(cs, s, VScroll(ToTop)), 0)
      && Moved(cs, s, Step(cs, s, VScroll(ToBottom)), MaxScroll(cs, s))
      && Moved(cs, s, Step(cs, s, VScroll(Thumb(pos))), pos)
    ensures Step(cs, s, KeyDown(OtherKey)) == s && Step(cs, s, VScroll(OtherBar)) == s && Step(cs, s, Other) == s
    ensures Step(cs, s, Destroy) == s.(buffer := false)
  {
    hide MaxScroll, Synced, AfterClick, ScrollTo, Moved, Good;
    var page := if s.h - 58 >= 60 then s.h - 58 - 20 else 40;
    ScrollToMoves(cs, s, s.scroll - 40);
    ScrollToMoves(cs, s, s.scroll + 40);
    ScrollToMoves(cs, s, s.scroll - page);
    ScrollToMoves(cs, s, s.scroll + page);
    ScrollToMoves(cs, s, s.scroll - 0x4000_0000);
    ScrollToMoves(cs, s, s.scroll + 0x4000_0000);
    ScrollToMoves(cs, s, 0);
    ScrollToMoves(cs, s, MaxScroll(cs, s));
    ScrollToMoves(cs, s, pos);
    StaysPut(cs, s);
  }

  lemma StaysPut(cs: Charset, s: State)
    requires s.created && Good(cs, s)
    ensures ScrollTo(cs, s, s.scroll) == s
  {
    hide ContentHeight;
  }

  lemma ScrollToMoves(cs: Charset, s: State, target: int)
    requires s.created && Good(cs, s)
    ensures Moved(cs, s, ScrollTo(cs, s, target), target)
  {
    hide MaxScroll, ContentHeight;
  }

  /** The wheel moves 48 rows for every whole notch of 120 in its turn, up for a turn away; less than one is none. */
  lemma WheelMoves(cs: Charset, s: State, hi: int, n: int)
    requires s.created && Good(cs, s)
    requires if hi >= 0 then 120 * n <= hi < 120 * (n + 1) else 120 * (n - 1) < hi <= 120 * n
    ensures Moved(cs, s, Step(cs, s, Wheel(hi)), s.scroll - 48 * n)
  {
    hide MaxScroll, ContentHeight;
  }

  /** An offset past the top is allowed exactly as long as the viewport's last row still shows content. */
  lemma FurthestOffset(cs: Charset, s: State, z: int)
    requires z > 0
    ensures z <= MaxScroll(cs, s) <==> z + (if s.h < 58 then 0 else s.h - 58) <= ContentHeight(cs, s.w, s.posts)
  {
    hide ContentHeight;
  }

  /** Before the window is created only its creation does anything. */
  lemma NothingBefore(cs: Charset, s: State, e: Event)
    requires !s.created && !e.Create?
    ensures Step(cs, s, e) == s
  {
  }

  /** Of the events that change the content or its width: a click that hits a card, and a new size. */
  predicate Relays(cs: Charset, s: State, e: Event) {
    e.Create? || e.Size? || (e.Click? && Owner(cs, s.w, s.posts, ContentRow(e.y, s.scroll)).Some?)
  }

  /** After them the offset is where it was if the new content allows that, and at its furthest otherwise; the scrollbar
      shows the new content. */
  lemma OffsetKept(cs: Charset, s: State, e: Event)
    requires Good(cs, s) && (s.created || e.Create?) && Relays(cs, s, e)
    ensures
      var (t, m) := (Step(cs, s, e), MaxScroll(cs, Step(cs, s, e)));
      && t.scroll == (if s.scroll <= m then s.scroll else m)
      && t.bar == Scrollbar(ContentHeight(cs, t.w, t.posts) - 1, if t.h - 58 < 1 then 1 else t.h - 58, t.scroll)
      && t.created
  {
    hide ContentHeight, Owner;
    var t := Step(cs, s, e);
    StepKeeps(cs, s, e);
    ContentNotEmpty(cs, t.w, t.posts);
  }

  /** A new size is taken over, at least one by one, with the new backbuffer; without one the old size stays. */
  lemma SizeTaken(cs: Charset, s: State, e: Event)
    requires (s.created && e.Size?) || e.Create?
    ensures
      var t := Step(cs, s, e);
      var (w, h, ok) := if e.Create? then (e.cw, e.ch, e.ok) else (e.sw, e.sh, e.ok);
      && t.buffer == ok && t.posts == s.posts
      && t.w == (if !ok then s.w else if w < 1 then 1 else w) && t.h == (if !ok then s.h else if h < 1 then 1 else h)
  {
    hide ContentHeight;
  }

  /** Two clicks in the same place give the whole state back whenever the offset is still allowed after the first and
      the card still has the row. */
  lemma TwoClicks(cs: Charset, s: State, y: int, i: nat)
    requires s.created && Good(cs, s) && Toggles(cs, s, y, i)
    requires
      var t := Step(cs, s, Click(y));
      i < |t.posts| && s.scroll <= MaxScroll(cs, t) && OnCard(cs, s.w - MARGINS, t.posts, i, ContentRow(y, s.scroll))
    ensures Step(cs, Step(cs, s, Click(y)), Click(y)) == s
  {
    hide ContentHeight, Owner, OnCard, MaxScroll;
    var t := Step(cs, s, Click(y));
    GoodWidth(cs, s);
    TogglesOwner(cs, s, y, i);
    OffsetKept(cs, s, Click(y));
    StepKeeps(cs, s, Click(y));
    OwnerIsTheCard(cs, s.w, t.posts, ContentRow(y, s.scroll), i);
    ClickLeaves(cs, s, y);
    assert t.scroll == s.scroll;
    var u := Step(cs, t, Click(y));
    OffsetKept(cs, t, Click(y));
    ClickLeaves(cs, t, y);
    assert Toggled(Toggled(s.posts, i), i) == s.posts;
    MaxScrollOf(cs, s, u);
  }

  lemma MaxScrollOf(cs: Charset, s: State, u: State)
    requires u.w == s.w && u.h == s.h && u.posts == s.posts
    ensures MaxScroll(cs, u) == MaxScroll(cs, s)
  {
  }

  /** A hit changes the posts, the offset and the scrollbar. */
  lemma ClickLeaves(cs: Charset, s: State, y: int)
    requires s.created
    ensures
      var t := Step(cs, s, Click(y));
      var o := Owner(cs, s.w, s.posts, ContentRow(y, s.scroll));
      && t == s.(posts := t.posts, scroll := t.scroll, bar := t.bar)
      && t.posts == (if o.Some? then Toggled(s.posts, o.value) else s.posts) && (o.None? ==> t == s)
  {
    hide ContentHeight, Owner;
  }

  /** Home and End reach the ends of any content within 2^30 rows of the offset, and of no longer one. */
  lemma HomeAndEnd(cs: Charset, s: State)
    requires s.created && 0 <= s.scroll <= MaxScroll(cs, s)
    ensures Step(cs, s, KeyDown(Home)).scroll == 0 <==> s.scroll <= FAR
    ensures Step(cs, s, KeyDown(End)).scroll == MaxScroll(cs, s) <==> MaxScroll(cs, s) - s.scroll <= FAR
  {
    hide MaxScroll, Synced, AfterClick;
  }

  /** A line down and a line up cancel exactly when the line down had room, or the feed was at its top. */
  lemma DownThenUp(cs: Charset, s: State)
    requires s.created && Good(cs, s)
    ensures Step(cs, Step(cs, s, KeyDown(Down)), KeyDown(Up)) == s
      <==> s.scroll + 40 <= MaxScroll(cs, s) || s.scroll == 0
  {
    hide ContentHeight;
    assert MaxScroll(cs, Step(cs, s, KeyDown(Down))) == MaxScroll(cs, s);
  }

  // ---- Painting and clicking agree ---------------------------------------

  /** The clamp inside draw_scrollable never moves the content. */
  lemma PaintClampIsIdentity(cs: Charset, s: State)
    requires s.created && Good(cs, s) && ViewHeight(s.h) > 0
    ensures Clamped(s.scroll, ContentHeight(cs, s.w, s.posts), ViewHeight(s.h)) == s.scroll
  {
    hide ContentHeight;
  }

  /** Whether a click at a window row toggles the i-th post and nothing else. */
  predicate Toggles(cs: Charset, s: State, y: int, i: nat) {
    i < |s.posts| && Step(cs, s, Click(y)).posts == Toggled(s.posts, i)
  }

  lemma TogglesOwner(cs: Charset, s: State, y: int, i: nat)
    requires s.created
    ensures Toggles(cs, s, y, i) <==> Owner(cs, s.w, s.posts, ContentRow(y, s.scroll)) == Some(i)
    ensures Step(cs, s, Click(y)).posts == s.posts
      <==> Owner(cs, s.w, s.posts, ContentRow(y, s.scroll)).None?
  {
    hide Owner, ContentHeight;
    var o := Owner(cs, s.w, s.posts, ContentRow(y, s.scroll));
    if o.Some? {
      var ps := Toggled(s.posts, o.value);
      assert Step(cs, s, Click(y)).posts == ps;
      assert ps[o.value].expanded != s.posts[o.value].expanded;
      if i < |s.posts| && i != o.value {
        assert Toggled(s.posts, i)[o.value] == s.posts[o.value];
      }
    } else if i < |s.posts| {
      assert Toggled(s.posts, i)[i] != s.posts[i];
    }
  }

  /** What paint leaves on a window row; nothing new without a backbuffer. */
  function SeenAt(cs: Charset, s: State, memory: bool, y: int): (seen: Option<Seen>) {
    if s.buffer then Some(WindowShows(cs, s.w, s.h, s.posts, s.scroll, Allocated(cs, s.w, s.posts, memory), y))
    else None
  }

  /** Whether cards can be seen at all: a backbuffer, memory within surface_alloc's limit, and a card wider than
      nothing. */
  predicate CardsVisible(cs: Charset, s: State, memory: bool) {
    s.buffer && Allocated(cs, s.w, s.posts, memory) && s.w > MARGINS
  }

  /** A viewport row shows the owner of the content row a click on it hits, in a window wide enough for a card. */
  lemma ScrolledShowsOwner(cs: Charset, width: int, h: int, posts: seq<Post>, scroll: int, y: int)
    requires width >= 0 && BAR_H <= y < h - NAV_H
    requires Clamped(scroll, ContentHeight(cs, width, posts), ViewHeight(h)) == scroll
    ensures Scrolled(cs, width, h, posts, scroll, true, y) == ContentShows(cs, width, posts, ContentRow(y, scroll))
  {
    hide Owner, ContentHeight, Clamped;
    OwnerInContent(cs, width, posts, ContentRow(y, scroll));
  }

  /** On every viewport row, the one the rule hides included, a click toggles exactly the post whose card the content
      under it shows, and none on a gap: in any window wide enough for a card. */
  lemma ClickHitsWhatIsUnder(cs: Charset, s: State, y: int, i: nat)
    requires s.created && Good(cs, s) && BAR_H <= y < s.h - NAV_H
    ensures
      var under := Scrolled(cs, s.w, s.h, s.posts, s.scroll, true, y);
      if s.w > MARGINS then
        (Toggles(cs, s, y, i) <==> under == Card(i)) && (Step(cs, s, Click(y)).posts == s.posts <==> under == Ground)
      else under == Ground
  {
    hide Owner, ContentHeight, Step, Good, Toggles, Clamped, Scrolled;
    GoodWidth(cs, s);
    TogglesOwner(cs, s, y, i);
    PaintClampIsIdentity(cs, s);
    ScrolledShowsOwner(cs, s.w, s.h, s.posts, s.scroll, y);
  }

  /** Between the bars a window row shows the owner of the content row a click on it hits, if cards can be seen. */
  lemma RowShowsOwner(cs: Charset, s: State, memory: bool, y: int)
    requires s.created && Good(cs, s) && BAR_H < y < s.h - NAV_H
    ensures
      var o := Owner(cs, s.w, s.posts, ContentRow(y, s.scroll));
      SeenAt(cs, s, memory, y) == if !s.buffer then None
        else if CardsVisible(cs, s, memory) && o.Some? then Some(Card(o.value)) else Some(Ground)
  {
    hide Owner, ContentHeight, Good, Clamped, Allocated;
    GoodWidth(cs, s);
    PaintClampIsIdentity(cs, s);
    ScrolledShowsOwner(cs, s.w, s.h, s.posts, s.scroll, y);
  }

  /** On a row a click and the picture agree when the click toggles exactly the post whose card is seen there. */
  ghost predicate Agrees(cs: Charset, s: State, memory: bool, y: int) {
    forall i :: Toggles(cs, s, y, i) <==> SeenAt(cs, s, memory, y) == Some(Card(i))
  }

  /** In a settled state they agree on a row exactly when cards can be seen, or no card is there. */
  lemma AgreesWhenVisible(cs: Charset, s: State, memory: bool, y: int)
    requires s.created && Good(cs, s) && BAR_H < y < s.h - NAV_H
    ensures Agrees(cs, s, memory, y)
      <==> CardsVisible(cs, s, memory) || Owner(cs, s.w, s.posts, ContentRow(y, s.scroll)).None?
  {
    hide Owner, Good, SeenAt, Toggles, Step;
    var o := Owner(cs, s.w, s.posts, ContentRow(y, s.scroll));
    RowShowsOwner(cs, s, memory, y);
    forall i: nat ensures Toggles(cs, s, y, i) <==> o == Some(i) {
      TogglesOwner(cs, s, y, i);
    }
    var seen := SeenAt(cs, s, memory, y);
    if o.Some? {
      assert Toggles(cs, s, y, o.value);
      assert CardsVisible(cs, s, memory) ==> s.buffer && seen == Some(Card(o.value));
    } else {
      assert seen == None || seen == Some(Ground);
    }
  }

  /**
   * In every state a run reaches, on every row below the app bar's rule and above the nav bar: a click toggles exactly
   * the post whose card is seen there, exactly when cards can be seen or no card is there.
   */
  lemma ClickHitsWhatIsSeen(cs: Charset, posts: seq<Post>, es: seq<Event>, memory: bool, y: int)
    ensures
      var s := Run(cs, Start(posts), es);
      var free := Owner(cs, s.w, s.posts, ContentRow(y, s.scroll)).None?;
      s.created && BAR_H < y < s.h - NAV_H ==> (Agrees(cs, s, memory, y) <==> CardsVisible(cs, s, memory) || free)
  {
    hide Good, Agrees, CardsVisible, Owner;
    EveryRunIsGood(cs, posts, es);
    var s := Run(cs, Start(posts), es);
    if s.created && BAR_H < y < s.h - NAV_H {
      AgreesWhenVisible(cs, s, memory, y);
    }
  }

  /** A window's pixels after painting: every row's label, and between the bars the content cell by cell. */
  ghost predicate Pictures(f: Face, s: State, memory: bool, looks: seq<Look>, px: seq<Pixel>, stride: int) {
    && s.buffer && stride >= s.w > 0 && |looks| == |s.posts| && |px| >= (s.h - 1) * stride + s.w
    && WindowIs(px, s.w, s.h, stride, TextsStay(f.cs, s.w, s.posts), row =>
         WindowShows(f.cs, s.w, s.h, s.posts, s.scroll, Allocated(f.cs, s.w, s.posts, memory), row))
    && (Allocated(f.cs, s.w, s.posts, memory) && ViewHeight(s.h) > 0 ==>
          ShowsFeed(f, px, s.w, s.h, stride, s.posts, looks, s.scroll))
    && Pictured(f, px, s.w, s.h, stride, s.posts, looks,
                Clamped(s.scroll, ContentHeight(f.cs, s.w, s.posts), ViewHeight(s.h)),
                Allocated(f.cs, s.w, s.posts, memory))
  }

  /** After any events every pixel of the painted window is the bars' color there, or what is on top in the content that
      many rows down. */
  lemma EveryPixel(f: Face, posts: seq<Post>, es: seq<Event>, memory: bool, looks: seq<Look>, px: seq<Pixel>,
                   stride: int, x: int, y: int)
    requires
      var s := Run(f.cs, Start(posts), es);
      s.created && 0 <= x < s.w && 0 <= y < s.h && Pictures(f, s, memory, looks, px, stride)
    ensures
      var s := Run(f.cs, Start(posts), es);
      && 0 <= Cell(stride, x, y) < |px|
      && px[Cell(stride, x, y)] ==
        ScreenColor(f, s.w, s.h, s.posts, looks, s.scroll, Allocated(f.cs, s.w, s.posts, memory), x, y)
  {
    hide Good, Run, TextsStay, Step, Column, Row, ContentHeight, WindowIs, ShowsFeed, Clamped, ScreenColor, Allocated;
    EveryRunIsGood(f.cs, posts, es);
    var s := Run(f.cs, Start(posts), es);
    var held := Allocated(f.cs, s.w, s.posts, memory);
    if ViewHeight(s.h) > 0 {
      PaintClampIsIdentity(f.cs, s);
    } else {
      var clamped := Clamped(s.scroll, ContentHeight(f.cs, s.w, s.posts), ViewHeight(s.h));
      NoViewport(f, px, s.w, s.h, stride, s.posts, looks, clamped, held, s.scroll, held);
    }
    CellInRange(stride, s.w, s.h, x, y);
    CellAt(stride, x, y, Cell(stride, x, y));
  }

  /**
   * The same on pixels: in every state a run reaches, between the bars, the painted pixel in the column of the cards'
   * left edge is not the background's exactly when cards can be seen and a click on its row toggles a post.
   */
  lemma ClickHitsPixels(f: Face, posts: seq<Post>, es: seq<Event>, memory: bool, looks: seq<Look>, px: seq<Pixel>,
                        stride: int, y: int)
    requires
      var s := Run(f.cs, Start(posts), es);
      s.created && BAR_H < y < s.h - NAV_H && EDGE < s.w && Pictures(f, s, memory, looks, px, stride)
    ensures
      var s := Run(f.cs, Start(posts), es);
      && 0 <= Cell(stride, EDGE, y) < |px|
      && (px[Cell(stride, EDGE, y)] != C_FACE <==>
            CardsVisible(f.cs, s, memory) && Step(f.cs, s, Click(y)).posts != s.posts)
  {
    hide Good, Owner, Run, Scrolled, TextsStay, Step, Allocated, Column, Row, ShowsFeed, Pictured, ContentHeight;
    EveryRunIsGood(f.cs, posts, es);
    var s := Run(f.cs, Start(posts), es);
    RowShowsOwner(f.cs, s, memory, y);
    TogglesOwner(f.cs, s, y, 0);
    CellInRange(stride, s.w, s.h, EDGE, y);
    CellAt(stride, EDGE, y, Cell(stride, EDGE, y));
  }

  /**
   * And every pixel of the row is the toggled card's: in every state a run reaches, between the bars, where a click
   * toggles the i-th post and cards can be seen, the window shows the row of that card as draw_post draws it alone,
   * unless a text of an earlier card reaches down to it.
   */
  lemma SeenIsTheCard(f: Face, posts: seq<Post>, es: seq<Event>, memory: bool, looks: seq<Look>, px: seq<Pixel>,
                      stride: int,
                      x: int, y: int, i: nat)
    requires
      var s := Run(f.cs, Start(posts), es);
      && s.created && BAR_H < y < s.h - NAV_H && 0 <= x < s.w && Pictures(f, s, memory, looks, px, stride)
      && CardsVisible(f.cs, s, memory) && Toggles(f.cs, s, y, i)
      && Unreached(ContentCanvas(f, s.w, s.posts), s.posts, looks, i)
    ensures
      var s := Run(f.cs, Start(posts), es);
      var c := ContentCanvas(f, s.w, s.posts);
      && 0 <= Cell(stride, x, y) < |px| && c.h > 0 && i < |s.posts|
      && 0 <= Cell(s.w, x, ContentRow(y, s.scroll)) < c.w * c.h
      && px[Cell(stride, x, y)] == CardAlone(c, s.posts, looks, i)[Cell(s.w, x, ContentRow(y, s.scroll))]
  {
    hide Good, Owner, Run, TextsStay, Step, Column, Row, ContentHeight, WindowIs, Pictured, Clamped, CardAlone, Content,
         OnCard, Toggles, Unreached;
    EveryRunIsGood(f.cs, posts, es);
    var s := Run(f.cs, Start(posts), es);
    var (c, r) := (ContentCanvas(f, s.w, s.posts), ContentRow(y, s.scroll));
    TogglesPost(f.cs, s, y, i);
    TogglesOwner(f.cs, s, y, i);
    OwnerIsTheCard(f.cs, s.w, s.posts, r, i);
    OwnerInContent(f.cs, s.w, s.posts, r);
    PaintClampIsIdentity(f.cs, s);
    CellInRange(stride, s.w, s.h, x, y);
    CellAt(stride, x, y, Cell(stride, x, y));
    StripSource(s.w, c.h, x, r);
    CardIsItsOwn(c, s.posts, looks, i, Cell(s.w, x, r));
  }

  lemma TogglesPost(cs: Charset, s: State, y: int, i: nat)
    requires Toggles(cs, s, y, i)
    ensures i < |s.posts|
  {
  }

  /** The first card's rows. */
  lemma FirstCard(cs: Charset, width: int, posts: seq<Post>, row: int)
    requires posts != [] && width >= 0 && POST_GAP <= row < width + 74
    ensures Owner(cs, width, posts, row) == Some(0)
  {
    hide Owner;
    OwnerIsTheCard(cs, width, posts, row, 0);
  }

  /** The three ways the picture and the clicks part: a feed too large for one surface, a backbuffer lost in a resize,
      and a window too narrow for a card. Each time a click on row 60 toggles the first post, whose card is not seen. */
  lemma PartingWays(cs: Charset, posts: seq<Post>)
    requires posts != []
    ensures
      var s := Run(cs, Start(posts), [Create(20000, 200, true)]);
      Toggles(cs, s, 60, 0) && SeenAt(cs, s, true, 60) == Some(Ground)
    ensures
      var s := Run(cs, Start(posts), [Create(300, 200, true), Size(400, 200, false)]);
      Toggles(cs, s, 60, 0) && SeenAt(cs, s, true, 60) == None
    ensures
      var s := Run(cs, Start(posts), [Create(12, 200, true)]);
      Toggles(cs, s, 60, 0) && SeenAt(cs, s, true, 60) == Some(Ground)
  {
    TooLarge(cs, posts);
    Lost(cs, posts);
    TooNarrow(cs, posts);
  }

  lemma RunOne(cs: Charset, s: State, e: Event)
    ensures Run(cs, s, [e]) == Step(cs, s, e)
  {
    assert [e][..0] == [];
  }

  lemma RunTwo(cs: Charset, s: State, e: Event, e': Event)
    ensures Run(cs, s, [e, e']) == Step(cs, Step(cs, s, e), e')
  {
    RunOne(cs, s, e);
    assert [e, e'][..1] == [e];
  }

  /** Right after its creation a window is at the top of the feed. */
  lemma Created(cs: Charset, posts: seq<Post>, w: int, h: int)
    requires w >= 1 && h >= 1
    ensures
      var s := Run(cs, Start(posts), [Create(w, h, true)]);
      s.created && s.buffer && s.w == w && s.h == h && s.scroll == 0 && s.posts == posts && Good(cs, s)
  {
    hide ContentHeight, Good;
    RunOne(cs, Start(posts), Create(w, h, true));
    EveryRunIsGood(cs, posts, [Create(w, h, true)]);
  }

  lemma TooLarge(cs: Charset, posts: seq<Post>)
    requires posts != []
    ensures
      var s := Run(cs, Start(posts), [Create(20000, 200, true)]);
      Toggles(cs, s, 60, 0) && SeenAt(cs, s, true, 60) == Some(Ground)
  {
    hide Owner, Good, Toggles, Run, SeenAt, ContentHeight;
    var s := Run(cs, Start(posts), [Create(20000, 200, true)]);
    Created(cs, posts, 20000, 200);
    FirstCard(cs, 20000, posts, 30);
    TogglesOwner(cs, s, 60, 0);
    RowShowsOwner(cs, s, true, 60);
    TallFeed(cs, 20000, posts);
    MulMono(20074, ContentHeight(cs, 20000, posts), 20000);
  }

  lemma TallFeed(cs: Charset, width: int, posts: seq<Post>)
    requires posts != [] && width >= 0
    ensures ContentHeight(cs, width, posts) >= width + 74
  {
    hide Height;
    CardsApart(cs, width - MARGINS, posts, 0, |posts|);
  }

  lemma Lost(cs: Charset, posts: seq<Post>)
    requires posts != []
    ensures
      var s := Run(cs, Start(posts), [Create(300, 200, true), Size(400, 200, false)]);
      Toggles(cs, s, 60, 0) && SeenAt(cs, s, true, 60) == None
  {
    hide Owner, Good, Toggles, ContentHeight, Run;
    var es := [Create(300, 200, true), Size(400, 200, false)];
    Created(cs, posts, 300, 200);
    RunOne(cs, Start(posts), es[0]);
    RunTwo(cs, Start(posts), es[0], es[1]);
    FirstCard(cs, 300, posts, 30);
    TogglesOwner(cs, Run(cs, Start(posts), es), 60, 0);
  }

  lemma TooNarrow(cs: Charset, posts: seq<Post>)
    requires posts != []
    ensures
      var s := Run(cs, Start(posts), [Create(12, 200, true)]);
      Toggles(cs, s, 60, 0) && SeenAt(cs, s, true, 60) == Some(Ground)
  {
    hide Owner, Good, Toggles, Run, SeenAt, ContentHeight;
    var s := Run(cs, Start(posts), [Create(12, 200, true)]);
    Created(cs, posts, 12, 200);
    FirstCard(cs, 12, posts, 30);
    TogglesOwner(cs, s, 60, 0);
    RowShowsOwner(cs, s, true, 60);
  }

  /** Of the two content rows at and a gap above a row, one is a card's. */
  lemma {:induction false} CardNear(cs: Charset, w: int, posts: seq<Post>, n: nat, row: int) returns (i: nat)
    requires n <= |posts| && w >= -12 && POST_GAP <= row < Top(cs, w, posts, n)
    ensures i < n && (OnCard(cs, w, posts, i, row) || OnCard(cs, w, posts, i, row - POST_GAP))
    decreases n
  {
    hide Height;
    if n > 0 {
      if row < Top(cs, w, posts, n - 1) {
        i := CardNear(cs, w, posts, n - 1, row);
      } else {
        i := n - 1;
      }
    }
  }

  lemma HeightIsTop(cs: Charset, width: int, posts: seq<Post>)
    ensures ContentHeight(cs, width, posts) == Top(cs, width - 12, posts, |posts|)
  {
  }

  /** The last row of the last card. */
  lemma LastCardRow(cs: Charset, w: int, posts: seq<Post>)
    requires posts != [] && w >= -MARGINS
    ensures OnCard(cs, w, posts, |posts| - 1, Top(cs, w, posts, |posts|) - POST_GAP - 1)
  {
    hide Height;
  }

  /** Whether a click somewhere in `n` window rows from `from` on toggles a post. */
  ghost predicate BandToggles(cs: Charset, s: State, from: int, n: nat) {
    exists y, i :: from <= y < from + n && Toggles(cs, s, y, i)
  }

  /** A band higher than a gap has a card under it when it reaches past the first gap and starts before the last one. */
  lemma CardUnderBand(cs: Charset, s: State, from: int, n: nat) returns (y: int, i: nat)
    requires s.created && s.w >= 0 && s.posts != [] && n > POST_GAP
    requires POST_GAP < ContentRow(from, s.scroll) + n
    requires ContentRow(from, s.scroll) < ContentHeight(cs, s.w, s.posts) - POST_GAP
    ensures from <= y < from + n && Toggles(cs, s, y, i)
  {
    hide Owner, ContentHeight, OnCard, Toggles, Top;
    HeightIsTop(cs, s.w, s.posts);
    TallFeed(cs, s.w, s.posts);
    var w, top := s.w - MARGINS, ContentHeight(cs, s.w, s.posts);
    var a := ContentRow(from, s.scroll);
    var m := if a + n - 1 <= top - POST_GAP - 1 then a + n - 1 else top - POST_GAP - 1;
    i := CardNear(cs, w, s.posts, |s.posts|, m);
    LastCardRow(cs, w, s.posts);
    var row := m;
    if m == top - POST_GAP - 1 {
      i := |s.posts| - 1;
    } else if !OnCard(cs, w, s.posts, i, m) {
      row := m - POST_GAP;
    }
    y := from + (row - a);
    OwnerIsTheCard(cs, s.w, s.posts, row, i);
    TogglesOwner(cs, s, y, i);
  }

  /** Some row of a band higher than a gap toggles a post exactly when its content reaches between the outer gaps. */
  lemma BandClicks(cs: Charset, s: State, from: int, n: nat)
    requires s.created && s.w >= 0 && s.posts != [] && n > POST_GAP
    ensures
      var a := ContentRow(from, s.scroll);
      BandToggles(cs, s, from, n) <==> POST_GAP < a + n && a < ContentHeight(cs, s.w, s.posts) - POST_GAP
  {
    hide Toggles, ContentHeight, Owner;
    var a := ContentRow(from, s.scroll);
    if POST_GAP < a + n && a < ContentHeight(cs, s.w, s.posts) - POST_GAP {
      var y, i := CardUnderBand(cs, s, from, n);
    }
    forall y, i | from <= y < from + n && Toggles(cs, s, y, i)
      ensures POST_GAP < a + n && a < ContentHeight(cs, s.w, s.posts) - POST_GAP
    {
      TogglesOwner(cs, s, y, i);
      OwnerBetweenGaps(cs, s.w, s.posts, ContentRow(y, s.scroll));
    }
  }

  lemma OwnerBetweenGaps(cs: Charset, width: int, posts: seq<Post>, row: int)
    requires width >= 0 && Owner(cs, width, posts, row).Some?
    ensures POST_GAP <= row < ContentHeight(cs, width, posts) - POST_GAP
  {
    hide Top, Height;
    OwnerFromHasRow(cs, width - MARGINS, posts, 0, row);
    CardsApart(cs, width - MARGINS, posts, Owner(cs, width, posts, row).value, |posts|);
  }

  /** Contrary to the comment in ui_feed_click_real, a click in the app bar can toggle a post: some row of the bar
      does exactly when the feed is scrolled past the gap above the first card. */
  lemma AppBarClicks(cs: Charset, s: State)
    requires s.created && Good(cs, s) && s.posts != []
    ensures BandToggles(cs, s, 0, BAR_H) <==> s.scroll > POST_GAP
  {
    hide ContentHeight, BandToggles;
    BandClicks(cs, s, 0, BAR_H);
    TallFeed(cs, s.w, s.posts);
  }

  /** So can a click in the nav bar: some row of it does exactly when the content behind it is past the first gap and
      does not end above it. */
  lemma NavBarClicks(cs: Charset, s: State)
    requires s.created && Good(cs, s) && s.posts != []
    ensures BandToggles(cs, s, s.h - NAV_H, NAV_H)
      <==> s.scroll + s.h > BAR_H + POST_GAP && s.scroll + s.h - CHROME < ContentHeight(cs, s.w, s.posts) - POST_GAP
  {
    hide ContentHeight, BandToggles;
    GoodWidth(cs, s);
    BandClicks(cs, s, s.h - NAV_H, NAV_H);
  }

  /** Both happen: one line down from the top, in a window of 300 by 200, with any feed that is not empty. */
  lemma BarsToggle(cs: Charset, posts: seq<Post>)
    requires posts != []
    ensures
      var s := Run(cs, Start(posts), [Create(300, 200, true), KeyDown(Down)]);
      s.scroll == 40 && BandToggles(cs, s, 0, BAR_H) && BandToggles(cs, s, s.h - NAV_H, NAV_H)
  {
    hide ContentHeight, BandToggles, Good, Run;
    var es := [Create(300, 200, true), KeyDown(Down)];
    Created(cs, posts, 300, 200);
    RunOne(cs, Start(posts), es[0]);
    RunTwo(cs, Start(posts), es[0], es[1]);
    EveryRunIsGood(cs, posts, es);
    var s := Run(cs, Start(posts), es);
    TallFeed(cs, 300, posts);
    AppBarClicks(cs, s);
    NavBarClicks(cs, s);
  }

  lemma MissesAll(cs: Charset, width: int, posts: seq<Post>, y: int, scroll: int)
    requires Owner(cs, width, posts, ContentRow(y, scroll)).None?
    ensures Clicked(cs, width, posts, y, scroll) == posts
  {
  }

  class PalWindow {
    const f: Face
    const posts: array<Post>
    var created: bool
    var buffer: bool
    var w: int
    var h: int
    var scroll: int
    var bar: Scrollbar

    ghost predicate Valid()
      reads this, posts
    {
      Good(f.cs, Value())
    }

    ghost function Value(): (s: State)
      reads this, posts
    {
      State(created, buffer, w, h, scroll, posts[..], bar)
    }

    constructor (face: Face, feed: array<Post>)
      ensures Valid() && Value() == Start(feed[..]) && posts == feed && f == face
    {
      f, posts := face, feed;
      created, buffer, w, h, scroll, bar := false, false, 0, 0, 0, Scrollbar(0, 0, 0);
    }

    /** max_scroll */
    method MaxOffset() returns (m: int)
      ensures m == MaxScroll(f.cs, Value())
    {
      hide ContentHeight;
      var content := ContentHeightReal(f, w, posts);
      var view := h - CHROME;
      if view < 0 {
        view := 0;
      }
      m := content - view;
      if m <= 0 {
        m := 0;
      }
    }

    /** sync_scrollbar */
    method SyncScrollbar()
      modifies this
      ensures Value() == Synced(f.cs, old(Value()))
    {
      hide ContentHeight, MaxScroll;
      var content := ContentHeightReal(f, w, posts);
      var view := h - CHROME;
      if view < 1 {
        view := 1;
      }
      var m := MaxOffset();
      if scroll > m {
        scroll := m;
      }
      if scroll < 0 {
        scroll := 0;
      }
      bar := Scrollbar(if content > 0 then content - 1 else 0, view, scroll);
    }

    /** The common end of scroll_by and of the scrollbar arm: clamp, and move the thumb if the offset changed. */
    method MoveTo(target: int, m: int)
      requires m == MaxScroll(f.cs, Value())
      modifies this
      ensures Value() == ScrollTo(f.cs, old(Value()), target)
    {
      hide MaxScroll;
      var y := target;
      if y > m {
        y := m;
      }
      if y < 0 {
        y := 0;
      }
      if y != scroll {
        scroll := y;
        bar := bar.(pos := y);
      }
    }

    /** scroll_by */
    method ScrollBy(delta: int)
      modifies this
      ensures Value() == ScrollTo(f.cs, old(Value()), old(scroll) + delta)
    {
      var m := MaxOffset();
      MoveTo(scroll + delta, m);
    }

    /** create_backbuffer, with the sync that follows each of its calls: the old backbuffer goes first. */
    method Resize(nw: int, nh: int, ok: bool)
      modifies this
      ensures Value() == Resized(f.cs, old(Value()), nw, nh, ok)
    {
      buffer := false;
      var cw := if nw < 1 then 1 else nw;
      var ch := if nh < 1 then 1 else nh;
      if ok {
        buffer, w, h := true, cw, ch;
      }
      hide Synced;
      SyncScrollbar();
    }

    method PageSize() returns (p: int)
      ensures p == Page(Value())
    {
      p := h - CHROME - 20;
      if p < 40 {
        p := 40;
      }
    }

    /** The WM_VSCROLL arm. */
    method OnScroll(code: Bar)
      modifies this
      ensures Value() == ScrollTo(f.cs, old(Value()), BarTarget(f.cs, old(Value()), code))
    {
      hide MaxScroll, ScrollTo, Page;
      var m := MaxOffset();
      var page := PageSize();
      var y := scroll;
      match code {
        case LineUp => y := y - 40;
        case LineDown => y := y + 40;
        case PageUp => y := y - page;
        case PageDown => y := y + page;
        case ToTop => y := 0;
        case ToBottom => y := m;
        case Thumb(pos) => y := pos;
        case OtherBar =>
      }
      MoveTo(y, m);
    }

    /** The WM_KEYDOWN arm. */
    method OnKey(key: Key)
      modifies this
      ensures
        var s := old(Value());
        var d := KeyDelta(s, key);
        Value() == if d.Some? then ScrollTo(f.cs, s, s.scroll + d.value) else s
    {
      hide ScrollTo, Page;
      var page := PageSize();
      match key {
        case Up => ScrollBy(-40);
        case Down => ScrollBy(40);
        case Prior => ScrollBy(-page);
        case Next => ScrollBy(page);
        case Home => ScrollBy(-FAR);
        case End => ScrollBy(FAR);
        case OtherKey =>
      }
    }

    /** The WM_LBUTTONDOWN arm. */
    method OnClick(y: int)
      requires w >= 0
      modifies this, posts
      ensures Value() == AfterClick(f.cs, old(Value()), y)
    {
      hide Synced, Clicked, Owner;
      var hit := ClickReal(f, y, scroll, w, posts);
      if hit {
        SyncScrollbar();
      } else {
        MissesAll(f.cs, w, old(posts[..]), y, scroll);
      }
    }

    /** wndproc */
    method Dispatch(e: Event)
      requires Valid()
      modifies this, posts
      ensures Valid() && Value() == Step(f.cs, old(Value()), e)
    {
      StepKeeps(f.cs, Value(), e);
      hide Good, Resized;
      if e.Create? {
        created := true;
        Resize(e.cw, e.ch, e.ok);
      } else if created {
        GoodWidth(f.cs, Value());
        Handle(e);
      }
    }

    /** The arms of wndproc that need a window. */
    method Handle(e: Event)
      requires created && w >= 0 && !e.Create?
      modifies this, posts
      ensures Value() == Step(f.cs, old(Value()), e)
    {
      hide Resized, ScrollTo, AfterClick, KeyDelta, BarTarget, WheelDelta;
      match e {
        case Size(nw, nh, ok) => Resize(nw, nh, ok);
        case VScroll(code) => OnScroll(code);
        case KeyDown(key) => OnKey(key);
        case Wheel(hi) => ScrollBy(WheelDelta(hi));
        case Click(y) => OnClick(y);
        case Destroy => buffer := false;
        case Other =>
      }
    }

    /** paint: without a backbuffer it returns at once. */
    method Paint(fb: Surface, looks: seq<Look>, photos: seq<Surface?>, memory: bool)
      requires Valid() && (buffer ==> fb.Valid() && fb.w == w && fb.h == h)
      requires |looks| == |photos| == posts.Length && forall i :: 0 <= i < |photos| ==> Holds(photos[i], looks[i].shot)
      requires forall i :: 0 <= i < |photos| && photos[i] != null ==> photos[i].pixels != fb.pixels
      modifies fb.pixels
      ensures if buffer then Pictures(f, Value(), memory, looks, fb.pixels[..], fb.stride)
              else fb.pixels != null ==> fb.pixels[..] == old(fb.pixels[..])
    {
      hide WindowShows, Allocated, ShowsFeed, Pictured, WindowIs, TextsStay, ContentHeight, Clamped, Holds;
      if !buffer {
        return;
      }
      DrawScrollable(f, fb, scroll, posts, looks, photos, memory);
    }
  }
}
