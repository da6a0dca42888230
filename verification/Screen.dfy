/** The scrolling feed of ui/feed.c: which card each window row shows, pixel by pixel, and which card a click hits. */
module Screen {
  import opened CTypes
  import opened Raster
  import opened Font
  import opened Caption
  import opened Draw
  import opened Feed
  import opened Paint
  import opened PaintLaws
  import opened PaintCells
  import opened Chrome

  const POST_GAP := 6
  const MARGINS := 12

  datatype Post = Post(username: seq<byte>, caption: Option<seq<byte>>, likes: seq<byte>, expanded: bool)

  /** What a pixel row shows: background, the i-th post's card, the app bar and the rule under it, or the nav bar. */
  datatype Seen = Ground | Card(i: nat) | AppBar | AppRule | NavBar

  // ---- Where the cards are -----------------------------------------------

  /** A card's height in a feed column `w` wide; the real feed shows no comments line. */
  function Height(cs: Charset, w: int, p: Post): (h: int)
    ensures h >= w + 86
  {
    CardHeight(cs, w, p.caption, false, p.expanded)
  }

  /** The content row where the i-th card starts. */
  function Top(cs: Charset, w: int, posts: seq<Post>, i: nat): (y: int)
    requires i <= |posts|
    decreases i
  {
    if i == 0 then POST_GAP else Top(cs, w, posts, i - 1) + Height(cs, w, posts[i - 1]) + POST_GAP
  }

  /** The height of the whole content at a window width. */
  function ContentHeight(cs: Charset, width: int, posts: seq<Post>): (h: int) {
    Top(cs, width - MARGINS, posts, |posts|)
  }

  predicate OnCard(cs: Charset, w: int, posts: seq<Post>, i: nat, row: int)
    requires i < |posts|
  {
    Top(cs, w, posts, i) <= row < Top(cs, w, posts, i) + Height(cs, w, posts[i])
  }

  /** The first card from the i-th on that has the row. */
  function OwnerFrom(cs: Charset, w: int, posts: seq<Post>, i: nat, row: int): (o: Option<nat>)
    requires i <= |posts|
    ensures o.Some? ==> i <= o.value < |posts|
    decreases |posts| - i
  {
    if i == |posts| then None
    else if OnCard(cs, w, posts, i, row) then Some(i)
    else OwnerFrom(cs, w, posts, i + 1, row)
  }

  lemma {:induction false} OwnerFromHasRow(cs: Charset, w: int, posts: seq<Post>, i: nat, row: int)
    requires i <= |posts|
    ensures
      var o := OwnerFrom(cs, w, posts, i, row);
      && (o.Some? ==> OnCard(cs, w, posts, o.value, row))
      && (o.None? ==> forall k :: i <= k < |posts| ==> !OnCard(cs, w, posts, k, row))
    decreases |posts| - i
  {
    hide OnCard;
    if i < |posts| {
      OwnerFromHasRow(cs, w, posts, i + 1, row);
    }
  }

  /** The card a content row belongs to, if any. */
  function Owner(cs: Charset, width: int, posts: seq<Post>, row: int): (o: Option<nat>)
    ensures o.Some? ==> o.value < |posts|
  {
    OwnerFrom(cs, width - MARGINS, posts, 0, row)
  }

  /** Cards lie one below the other with a gap between them. */
  lemma {:induction false} CardsApart(cs: Charset, w: int, posts: seq<Post>, i: nat, j: nat)
    requires i < j <= |posts| && w > -86
    ensures POST_GAP <= Top(cs, w, posts, i)
    ensures Top(cs, w, posts, i) + Height(cs, w, posts[i]) + POST_GAP <= Top(cs, w, posts, j)
    decreases j
  {
    hide Height;
    if i > 0 {
      CardsApart(cs, w, posts, i - 1, i);
    }
    if i + 1 < j {
      CardsApart(cs, w, posts, i, j - 1);
    }
  }

  /** A row's owner is the one card that has it. */
  lemma OwnerIsTheCard(cs: Charset, width: int, posts: seq<Post>, row: int, i: nat)
    requires i < |posts| && width >= 0
    ensures Owner(cs, width, posts, row) == Some(i) <==> OnCard(cs, width - MARGINS, posts, i, row)
  {
    hide Top, Height;
    OwnerFromHasRow(cs, width - MARGINS, posts, 0, row);
    var o := Owner(cs, width, posts, row);
    if o.Some? {
      if o.value < i {
        CardsApart(cs, width - MARGINS, posts, o.value, i);
      } else if i < o.value {
        CardsApart(cs, width - MARGINS, posts, i, o.value);
      }
    }
  }

  /** No card has a row outside the content, or above the first gap. */
  lemma OwnerInContent(cs: Charset, width: int, posts: seq<Post>, row: int)
    requires width >= 0
    ensures Owner(cs, width, posts, row).Some? ==> POST_GAP <= row < ContentHeight(cs, width, posts)
  {
    hide Top, Height;
    OwnerFromHasRow(cs, width - MARGINS, posts, 0, row);
    var o := Owner(cs, width, posts, row);
    if o.Some? {
      CardsApart(cs, width - MARGINS, posts, o.value, |posts|);
    }
  }

  // ---- Layout and hit-testing --------------------------------------------

  /** ui_feed_content_height_real */
  method ContentHeightReal(f: Face, width: int, posts: array<Post>) returns (total: int)
    ensures total == ContentHeight(f.cs, width, posts[..])
  {
    hide CardHeight;
    var w := width - MARGINS;
    total := POST_GAP;
    for i := 0 to posts.Length
      invariant total == Top(f.cs, w, posts[..], i)
    {
      var p := posts[i];
      var h := PostCardHeight(f, w, p.likes, p.username, p.caption, None, p.expanded);
      total := total + h + POST_GAP;
    }
  }

  /** The content row under a window row. */
  function ContentRow(y: int, scroll: int): (r: int) {
    y - BAR_H + scroll
  }

  function Toggled(posts: seq<Post>, i: nat): (ps: seq<Post>)
    requires i < |posts|
  {
    posts[i := posts[i].(expanded := !posts[i].expanded)]
  }

  /** The posts after a click: the owner of the row under it is toggled. */
  function Clicked(cs: Charset, width: int, posts: seq<Post>, y: int, scroll: int): (ps: seq<Post>)
    ensures |ps| == |posts|
  {
    var o := Owner(cs, width, posts, ContentRow(y, scroll));
    if o.Some? then Toggled(posts, o.value) else posts
  }

  /** ui_feed_click_real */
  method ClickReal(f: Face, y: int, scroll: int, width: int, posts: array<Post>) returns (hit: bool)
    requires width >= 0
    modifies posts
    ensures posts[..] == Clicked(f.cs, width, old(posts[..]), y, scroll)
    ensures hit <==> Owner(f.cs, width, old(posts[..]), ContentRow(y, scroll)).Some?
  {
    hide CardHeight;
    ghost var was := posts[..];
    var yContent := y - BAR_H + scroll;
    OwnerInContent(f.cs, width, was, yContent);
    if yContent < POST_GAP {
      return false;
    }
    var w := width - MARGINS;
    var top := POST_GAP;
    for i := 0 to posts.Length
      invariant posts[..] == was && top == Top(f.cs, w, was, i)
      invariant Owner(f.cs, width, was, yContent) == OwnerFrom(f.cs, w, was, i, yContent)
    {
      var p := posts[i];
      var h := PostCardHeight(f, w, p.likes, p.username, p.caption, None, p.expanded);
      if top <= yContent < top + h {
        posts[i] := p.(expanded := !p.expanded);
        return true;
      }
      top := top + h + POST_GAP;
    }
    hit := false;
  }

  // ---- Painting the content ----------------------------------------------

  /** What a content row shows; a card no wider than nothing leaves no trace. */
  function ContentShows(cs: Charset, width: int, posts: seq<Post>, row: int): (s: Seen) {
    var o := Owner(cs, width, posts, row);
    if o.Some? && width > MARGINS then Card(o.value) else Ground
  }

  /**
   * How a row's label reads on the pixel in column `x` of a surface `w` wide. On the cards' left edge background and
   * card are told apart by the background's color, which no card has there; where all texts end in their cards, a row
   * of background is background all over. The bars and the rule are told by their own colors.
   */
  predicate CellShows(p: Pixel, x: int, w: int, plain: bool, seen: Seen) {
    match seen
    case Ground => plain || w <= MARGINS || x == EDGE ==> p == C_FACE
    case Card(_) => w > MARGINS && (x == EDGE ==> p != C_FACE)
    case AppBar => p == C_IG_BLUE || p == C_HILIGHT
    case AppRule => p == C_DARK
    case NavBar => NavTone(p)
  }

  predicate NavTone(p: Pixel) {
    p == C_FACE || p == C_HILIGHT || p == C_SHADOW || p == C_INK || p == C_IG_BLUE
  }

  /** What a post's card is drawn from besides its texts. */
  datatype Look = Look(top: Pixel, bot: Pixel, shot: Option<Shot>, room: bool)

  function ViewOf(p: Post, l: Look): (v: View) {
    View(l.top, l.bot, p.username, None, p.likes, p.caption, None, false, p.expanded, l.shot, l.room)
  }

  const NO_LOOK := Look(C_FACE, C_FACE, None, false)

  /** Every text ends within its card; without newlines all do. */
  predicate TextsStay(cs: Charset, width: int, posts: seq<Post>) {
    forall i :: 0 <= i < |posts| ==> TextsFit(cs, width - MARGINS, ViewOf(posts[i], NO_LOOK))
  }

  lemma PlainTextsStay(cs: Charset, width: int, posts: seq<Post>)
    requires width >= 0
    requires forall i :: 0 <= i < |posts| ==> NEWLINE !in posts[i].username && NEWLINE !in posts[i].likes
    ensures TextsStay(cs, width, posts)
  {
    hide TextsFit;
    forall i | 0 <= i < |posts| ensures TextsFit(cs, width - MARGINS, ViewOf(posts[i], NO_LOOK)) {
      PlainTextsFit(cs, width - MARGINS, ViewOf(posts[i], NO_LOOK));
    }
  }

  /** What a row shows after the first `n` posts: the last of them painted on it. */
  ghost function ShownBy(cs: Charset, w: int, posts: seq<Post>, n: nat, row: int): (s: Seen)
    requires n <= |posts|
    decreases n
  {
    if n == 0 then Ground
    else if w > 0 && OnCard(cs, w, posts, n - 1, row) then Card(n - 1)
    else ShownBy(cs, w, posts, n - 1, row)
  }

  /** The content surface after the first `n` posts. */
  ghost predicate Shown(cs: Charset, px: seq<Pixel>, width: int, height: int, posts: seq<Post>, n: nat)
    requires n <= |posts| && width > 0
  {
    forall k :: 0 <= k < |px| && Row(width, k) < height ==>
      CellShows(px[k], Column(width, k), width, TextsStay(cs, width, posts),
                ShownBy(cs, width - MARGINS, posts, n, Row(width, k)))
  }

  /** One cell once one more card is painted. */
  lemma CardCell(p: Pixel, p': Pixel, x: int, width: int, plain: bool, was: Seen, on: bool, n: nat)
    requires width > 0 && (was.Ground? || was.Card?) && CellShows(p, x, width, plain, was)
    requires x == EDGE ==> if on then p != C_FACE ==> p' != C_FACE else p' == p
    requires width <= MARGINS || (plain && !on) ==> p' == p
    requires width > MARGINS && x == EDGE && on ==> p' != C_FACE
    ensures CellShows(p', x, width, plain, if width > MARGINS && on then Card(n) else was)
  {
  }

  lemma ShownKind(cs: Charset, w: int, posts: seq<Post>, n: nat, row: int)
    requires n <= |posts|
    ensures ShownBy(cs, w, posts, n, row).Ground? || ShownBy(cs, w, posts, n, row).Card?
  {
    hide OnCard;
  }

  lemma PlacePlain(cs: Charset, width: int, height: int, posts: seq<Post>, n: nat, l: Look)
    requires n < |posts| && width > 0
    ensures
      var w := width - MARGINS;
      var b := CardPlace(cs, width, height, EDGE, Top(cs, w, posts, n), w, ViewOf(posts[n], l));
      && (TextsStay(cs, width, posts) ==> b.plain) && (b.off <==> width <= MARGINS)
      && b.stride == width && b.rows == height && b.edge == EDGE
      && forall k :: InRows(b, k) <==> OnCard(cs, w, posts, n, Row(width, k))
  {
    hide Row, Top, BlockHeight, TextDepth;
  }

  /** One more card painted. */
  lemma CardShown(cs: Charset, px: seq<Pixel>, px': seq<Pixel>, width: int, height: int, posts: seq<Post>, n: nat,
                  l: Look)
    requires n < |posts| && width > 0 && Shown(cs, px, width, height, posts, n)
    requires
      var w := width - MARGINS;
      var b := CardPlace(cs, width, height, EDGE, Top(cs, w, posts, n), w, ViewOf(posts[n], l));
      Keeps(px, px', b) && (w > 0 ==> Edged(px', b))
    ensures Shown(cs, px', width, height, posts, n + 1)
  {
    var w := width - MARGINS;
    var b := CardPlace(cs, width, height, EDGE, Top(cs, w, posts, n), w, ViewOf(posts[n], l));
    PlacePlain(cs, width, height, posts, n, l);
    hide Column, Row, Top, CardHeight, TextsStay, ShownBy, CellShows, InRows, OnCard, CardPlace;
    forall k | 0 <= k < |px'| && Row(width, k) < height
      ensures CellShows(px'[k], Column(width, k), width, TextsStay(cs, width, posts),
                        ShownBy(cs, w, posts, n + 1, Row(width, k)))
    {
      var row := Row(width, k);
      ShownStep(cs, w, posts, n, row);
      ShownKind(cs, w, posts, n, row);
      assert KeepsAt(px, px', b, k);
      var was := ShownBy(cs, w, posts, n, row);
      CardCell(px[k], px'[k], Column(width, k), width, TextsStay(cs, width, posts), was, InRows(b, k), n);
    }
  }

  lemma ShownStep(cs: Charset, w: int, posts: seq<Post>, n: nat, row: int)
    requires n < |posts|
    ensures ShownBy(cs, w, posts, n + 1, row) ==
      if w > 0 && OnCard(cs, w, posts, n, row) then Card(n) else ShownBy(cs, w, posts, n, row)
  {
  }

  /** The steps that paint the i-th card. */
  function PostOps(c: Canvas, posts: seq<Post>, looks: seq<Look>, i: nat): (ops: seq<Op>)
    requires i < |posts| == |looks|
  {
    CardOps(c.f.cs, EDGE, Top(c.f.cs, c.w - MARGINS, posts, i), c.w - MARGINS, ViewOf(posts[i], looks[i]))
  }

  function Background(c: Canvas): (px: seq<Pixel>)
    requires c.w > 0 && c.h > 0
  {
    Repeat(C_FACE, c.w * c.h)
  }

  /** The content surface's pixels after the first `n` cards. */
  function Content(c: Canvas, posts: seq<Post>, looks: seq<Look>, n: nat): (px: seq<Pixel>)
    requires c.stride == c.w > 0 && c.h > 0 && n <= |posts| == |looks|
    ensures |px| == c.w * c.h
    decreases n
  {
    if n == 0 then Background(c) else Painted(c, Content(c, posts, looks, n - 1), PostOps(c, posts, looks, n - 1))
  }

  /** What draw_post leaves of the i-th card alone, on a blank surface. */
  function CardAlone(c: Canvas, posts: seq<Post>, looks: seq<Look>, i: nat): (px: seq<Pixel>)
    requires c.stride == c.w > 0 && c.h > 0 && i < |posts| == |looks|
    ensures |px| == c.w * c.h
  {
    Painted(c, Background(c), PostOps(c, posts, looks, i))
  }

  /** fill_real_posts, on a surface as surface_alloc makes it; `photos` hold what `looks` says. */
  method FillRealPosts(f: Face, content: Surface, posts: array<Post>, looks: seq<Look>, photos: seq<Surface?>)
    requires content.Valid() && content.stride == content.w && content.pixels.Length == content.w * content.h
    requires |looks| == |photos| == posts.Length && forall i :: 0 <= i < |photos| ==> Holds(photos[i], looks[i].shot)
    requires forall i :: 0 <= i < |photos| && photos[i] != null ==> photos[i].pixels != content.pixels
    modifies content.pixels
    ensures content.pixels[..] ==
      Content(Canvas(f, content.w, content.h, content.stride), posts[..], looks, posts.Length)
  {
    hide Top, CardOps, FillCells, Painted, Holds, Content, CardHeight;
    ghost var ps := posts[..];
    ghost var c := Canvas(f, content.w, content.h, content.stride);
    BlankContent(content.pixels[..], content.w, content.h);
    ContentOfNone(c, ps, looks);
    Fill(content, C_FACE);
    var w, y := content.w - MARGINS, POST_GAP;
    FirstTop(f.cs, w, ps);
    for i := 0 to posts.Length
      invariant posts[..] == ps && content.Valid() && y == Top(f.cs, w, ps, i)
      invariant forall j :: 0 <= j < |photos| ==> Holds(photos[j], looks[j].shot)
      invariant content.pixels[..] == Content(c, ps, looks, i)
    {
      NextTop(f.cs, content.w, content.h, ps, i, looks[i]);
      ContentStep(c, ps, looks, i);
      var bottom;
      y, bottom := DrawPost(f, content, EDGE, y, w, ViewOf(posts[i], looks[i]), photos[i]);
    }
  }

  lemma FirstTop(cs: Charset, w: int, posts: seq<Post>)
    ensures Top(cs, w, posts, 0) == POST_GAP
  {
  }

  /** The next card starts a gap below the one painted. */
  lemma NextTop(cs: Charset, width: int, height: int, posts: seq<Post>, i: nat, l: Look)
    requires i < |posts|
    ensures
      var (w, y, v) := (width - MARGINS, Top(cs, width - MARGINS, posts, i), ViewOf(posts[i], l));
      Top(cs, w, posts, i + 1) == y + CardHeight(cs, w, v.caption, v.comments.Some?, v.expanded) + POST_GAP
  {
    hide CardHeight;
  }

  lemma BlankContent(px: seq<Pixel>, w: int, h: int)
    requires w > 0 && h > 0 && |px| == w * h
    ensures FillCells(px, w, h, w, Rect(0, 0, w, h), C_FACE) == Repeat(C_FACE, w * h)
  {
    AllFace(px, w, h, w);
    forall k | 0 <= k < |px| ensures Column(w, k) < w && Row(w, k) < h {
      RowMajor(w, h, k);
    }
    hide Column, Row, FillCells;
  }

  /** On every content row the cards' left edge shows the row's label. */
  lemma {:induction false} ContentIsShown(c: Canvas, posts: seq<Post>, looks: seq<Look>, n: nat)
    requires c.stride == c.w > 0 && c.h > 0 && n <= |posts| == |looks|
    ensures Shown(c.f.cs, Content(c, posts, looks, n), c.w, c.h, posts, n)
    decreases n
  {
    hide Shown, Keeps, Edged, CardOps, CardPlace, Painted, Top;
    if n == 0 {
      BackgroundShown(c, posts);
    } else {
      ContentIsShown(c, posts, looks, n - 1);
      var (w, i) := (c.w - MARGINS, n - 1);
      var (y, v) := (Top(c.f.cs, w, posts, i), ViewOf(posts[i], looks[i]));
      var px := Content(c, posts, looks, i);
      CardKeeps(c, px, EDGE, y, w, v);
      if w > 0 {
        CardEdged(c, px, EDGE, y, w, v);
      }
      CardShown(c.f.cs, px, Content(c, posts, looks, n), c.w, c.h, posts, i, looks[i]);
    }
  }

  lemma BackgroundShown(c: Canvas, posts: seq<Post>)
    requires c.w > 0 && c.h > 0
    ensures Shown(c.f.cs, Background(c), c.w, c.h, posts, 0)
  {
    hide Column, Row, TextsStay;
  }

  /** No text of an earlier card reaches down to the i-th. */
  ghost predicate Unreached(c: Canvas, posts: seq<Post>, looks: seq<Look>, i: nat)
    requires i < |posts| == |looks|
  {
    forall j :: 0 <= j < i ==> AllEndAbove(c.f.cs, PostOps(c, posts, looks, j), Top(c.f.cs, c.w - MARGINS, posts, i))
  }

  /** That is so for every card when all texts end in their own. */
  lemma TextsStayUnreached(c: Canvas, posts: seq<Post>, looks: seq<Look>, i: nat)
    requires c.w > 0 && i < |posts| == |looks| && TextsStay(c.f.cs, c.w, posts)
    ensures Unreached(c, posts, looks, i)
  {
    hide Top, CardOps, AllEndAbove, TextDepth, BlockHeight;
    var w := c.w - MARGINS;
    forall j | 0 <= j < i ensures AllEndAbove(c.f.cs, PostOps(c, posts, looks, j), Top(c.f.cs, w, posts, i)) {
      var (y, v) := (Top(c.f.cs, w, posts, j), ViewOf(posts[j], looks[j]));
      assert TextsFit(c.f.cs, w, ViewOf(posts[j], NO_LOOK));
      TextsEndInCard(c.f.cs, EDGE, y, w, v);
      CardsApart(c.f.cs, w, posts, j, i);
      HigherToo(c.f.cs, CardOps(c.f.cs, EDGE, y, w, v), y + Height(c.f.cs, w, posts[j]), Top(c.f.cs, w, posts, i));
    }
  }

  /** An unreached card is drawn on background. */
  lemma {:induction false} DrawnOnBackground(c: Canvas, posts: seq<Post>, looks: seq<Look>, i: nat, n: nat, k: nat)
    requires c.stride == c.w > 0 && c.h > 0 && n <= i < |posts| == |looks| && k < c.w * c.h
    requires Unreached(c, posts, looks, i) && Row(c.w, k) >= Top(c.f.cs, c.w - MARGINS, posts, i)
    ensures Content(c, posts, looks, n)[k] == Background(c)[k]
    decreases n
  {
    hide CardOps, Painted, Top, Row, AllEndAbove, CardHeight;
    if n > 0 {
      var (w, j) := (c.w - MARGINS, n - 1);
      var (y, v) := (Top(c.f.cs, w, posts, j), ViewOf(posts[j], looks[j]));
      DrawnOnBackground(c, posts, looks, i, j, k);
      CardsApart(c.f.cs, w, posts, j, i);
      assert AllEndAbove(c.f.cs, PostOps(c, posts, looks, j), Top(c.f.cs, w, posts, i));
      CardReaches(c, Content(c, posts, looks, j), EDGE, y, w, v, Top(c.f.cs, w, posts, i));
    }
  }

  /** Later cards change nothing above them. */
  lemma {:induction false} LaterCardsBelow(c: Canvas, posts: seq<Post>, looks: seq<Look>, i: nat, n: nat, k: nat)
    requires c.stride == c.w > 0 && c.h > 0 && i <= n <= |posts| == |looks| && k < c.w * c.h
    requires Row(c.w, k) < Top(c.f.cs, c.w - MARGINS, posts, i)
    ensures Content(c, posts, looks, n)[k] == Content(c, posts, looks, i)[k]
    decreases n
  {
    hide CardOps, Painted, Top, Row, Column, CardHeight, TextsFit, Height, InRows;
    if i < n {
      var (w, j) := (c.w - MARGINS, n - 1);
      var (y, v) := (Top(c.f.cs, w, posts, j), ViewOf(posts[j], looks[j]));
      LaterCardsBelow(c, posts, looks, i, j, k);
      if i < j {
        CardsApart(c.f.cs, w, posts, i, j);
        HeightPositive(c.f.cs, w, posts[i]);
      }
      CardKeeps(c, Content(c, posts, looks, j), EDGE, y, w, v);
      var b := CardPlace(c.f.cs, c.stride, c.h, EDGE, y, w, v);
      assert KeepsAt(Content(c, posts, looks, j), Content(c, posts, looks, n), b, k);
    }
  }

  lemma HeightPositive(cs: Charset, w: int, p: Post)
    requires w >= -MARGINS
    ensures Height(cs, w, p) > 0
  {
  }

  /** An unreached card's rows of the content are what draw_post leaves of that card alone on a blank surface. */
  lemma CardIsItsOwn(c: Canvas, posts: seq<Post>, looks: seq<Look>, i: nat, k: nat)
    requires c.stride == c.w > 0 && c.h > 0 && i < |posts| == |looks| && k < c.w * c.h
    requires Unreached(c, posts, looks, i) && OnCard(c.f.cs, c.w - MARGINS, posts, i, Row(c.w, k))
    ensures Content(c, posts, looks, |posts|)[k] == CardAlone(c, posts, looks, i)[k]
  {
    hide PostOps, Painted, Height, Top, Row, Content, Unreached;
    var w := c.w - MARGINS;
    var (top, bottom) := (Top(c.f.cs, w, posts, i), Top(c.f.cs, w, posts, i) + Height(c.f.cs, w, posts[i]));
    var before := Content(c, posts, looks, i);
    forall m | 0 <= m < |before| && top <= Row(c.w, m) < bottom ensures before[m] == Background(c)[m] {
      DrawnOnBackground(c, posts, looks, i, i, m);
    }
    PaintedLocal(c, before, Background(c), PostOps(c, posts, looks, i), top, bottom);
    ContentStep(c, posts, looks, i);
    CardsApart(c.f.cs, w, posts, i, i + 1);
    LaterCardsBelow(c, posts, looks, i + 1, |posts|, k);
  }

  lemma ContentOfNone(c: Canvas, posts: seq<Post>, looks: seq<Look>)
    requires c.stride == c.w > 0 && c.h > 0 && |posts| == |looks|
    ensures Content(c, posts, looks, 0) == Background(c)
  {
  }

  lemma ContentStep(c: Canvas, posts: seq<Post>, looks: seq<Look>, i: nat)
    requires c.stride == c.w > 0 && c.h > 0 && i < |posts| == |looks|
    ensures Content(c, posts, looks, i + 1) == Painted(c, Content(c, posts, looks, i), PostOps(c, posts, looks, i))
  {
  }

  lemma AllShown(cs: Charset, px: seq<Pixel>, width: int, height: int, posts: seq<Post>)
    requires width > 0 && Shown(cs, px, width, height, posts, |posts|)
    ensures forall k :: 0 <= k < |px| && Row(width, k) < height ==>
      CellShows(px[k], Column(width, k), width, TextsStay(cs, width, posts),
                ContentShows(cs, width, posts, Row(width, k)))
  {
    hide Column, Row, ShownBy, ContentShows, CellShows, TextsStay;
    forall k | 0 <= k < |px| && Row(width, k) < height
      ensures CellShows(px[k], Column(width, k), width, TextsStay(cs, width, posts),
                        ContentShows(cs, width, posts, Row(width, k)))
    {
      ShownAll(cs, width, posts, Row(width, k));
    }
  }

  /** Painting in order shows each row's one owner. */
  lemma {:induction false} ShownAll(cs: Charset, width: int, posts: seq<Post>, row: int)
    requires width >= 0
    ensures ShownBy(cs, width - MARGINS, posts, |posts|, row) == ContentShows(cs, width, posts, row)
  {
    hide OnCard;
    var o := Owner(cs, width, posts, row);
    ShownUpTo(cs, width, posts, |posts|, row, o);
  }

  lemma {:induction false} ShownUpTo(cs: Charset, width: int, posts: seq<Post>, n: nat, row: int, o: Option<nat>)
    requires width >= 0 && n <= |posts| && o == Owner(cs, width, posts, row)
    ensures ShownBy(cs, width - MARGINS, posts, n, row) ==
      if o.Some? && o.value < n && width > MARGINS then Card(o.value) else Ground
    decreases n
  {
    hide OnCard;
    if n > 0 {
      ShownUpTo(cs, width, posts, n - 1, row, o);
      OwnerIsTheCard(cs, width, posts, row, n - 1);
    }
  }

  // ---- What a click changes ----------------------------------------------

  /** How many lines a post's caption wraps into. */
  function CaptionCount(cs: Charset, width: int, p: Post): (k: nat) {
    |Wrapped(cs, p.caption, width - MARGINS - 2 * POST_PAD)|
  }

  /** By how much expanding a post makes its card higher. */
  function Hidden(k: nat): (d: int) {
    if k > 2 then 19 * (k - 2) else 0
  }

  lemma HeightToggled(cs: Charset, width: int, p: Post)
    ensures
      var q := p.(expanded := !p.expanded);
      var d := Hidden(CaptionCount(cs, width, p));
      Height(cs, width - MARGINS, q) == Height(cs, width - MARGINS, p) + if p.expanded then -d else d
  {
    hide Wrapped;
  }

  lemma NextOfTop(cs: Charset, w: int, posts: seq<Post>, i: nat)
    requires i < |posts|
    ensures Top(cs, w, posts, i + 1) == Top(cs, w, posts, i) + Height(cs, w, posts[i]) + 6
  {
    hide Height;
  }

  lemma {:induction false} TopToggled(cs: Charset, width: int, posts: seq<Post>, i: nat, n: nat)
    requires i < |posts| && n <= |posts|
    ensures
      var d := Hidden(CaptionCount(cs, width, posts[i]));
      Top(cs, width - MARGINS, Toggled(posts, i), n) ==
      Top(cs, width - MARGINS, posts, n) + if n <= i then 0 else if posts[i].expanded then -d else d
    decreases n
  {
    hide Height, Hidden, CaptionCount;
    if n > 0 {
      TopToggled(cs, width, posts, i, n - 1);
      HeightToggled(cs, width, posts[i]);
      NextOfTop(cs, width - MARGINS, posts, n - 1);
      NextOfTop(cs, width - MARGINS, Toggled(posts, i), n - 1);
      hide Top;
    }
  }

  /** A click changes the height of the content by 19 rows for every line past the second of the card it hits: it grows
      by them when the card expands, and shrinks by them when it collapses. */
  lemma ClickGrows(cs: Charset, width: int, posts: seq<Post>, i: nat)
    requires i < |posts|
    ensures
      var (k, now) := (CaptionCount(cs, width, posts[i]), ContentHeight(cs, width, posts));
      ContentHeight(cs, width, Toggled(posts, i)) ==
        if k <= 2 then now else if posts[i].expanded then now - 19 * (k - 2) else now + 19 * (k - 2)
  {
    hide Top, CaptionCount;
    TopToggled(cs, width, posts, i, |posts|);
  }

  /** A card of two lines or fewer is drawn the same either way. */
  lemma ShortCardSame(cs: Charset, x: int, y: int, width: int, p: Post, l: Look)
    requires CaptionCount(cs, width, p) <= 2
    ensures CardOps(cs, x, y, width - MARGINS, ViewOf(p.(expanded := !p.expanded), l)) ==
      CardOps(cs, x, y, width - MARGINS, ViewOf(p, l))
  {
    hide BlockRuns, HeaderOps, WellOps, ActionOps, Writes, BlockHeight;
    var (v, u) := (ViewOf(p, l), ViewOf(p.(expanded := !p.expanded), l));
    var (w, cx) := (width - MARGINS, x + POST_PAD);
    var (cw, cy) := (w - 2 * POST_PAD, y + 40 + (w - 2 * POST_PAD) + 26);
    ShortBlockSame(cs, cx, cy, cw, p.likes, p.username, p.caption, p.expanded);
    FrontSame(x, y, w, CardHeight(cs, w, v.caption, false, v.expanded), Rect(cx, y + 40, cw, cw), u, v);
  }

  lemma ShortBlockSame(cs: Charset, cx: int, cy: int, cw: int, likes: seq<byte>, user: seq<byte>,
                       caption: Option<seq<byte>>, expanded: bool)
    requires |Wrapped(cs, caption, cw)| <= 2
    ensures BlockRuns(cs, cx, cy, cw, likes, user, caption, None, !expanded) ==
      BlockRuns(cs, cx, cy, cw, likes, user, caption, None, expanded)
    ensures BlockHeight(cs, cw, caption, false, !expanded) == BlockHeight(cs, cw, caption, false, expanded)
  {
    hide Wrapped, CaptionRuns;
  }

  lemma FrontSame(x: int, y: int, w: int, h: int, well: Rect, u: View, v: View)
    requires u == v.(expanded := u.expanded)
    ensures HeaderOps(x, y, w, h, u) == HeaderOps(x, y, w, h, v) && WellOps(well, u) == WellOps(well, v)
  {
    hide GradientOps, DotOps, RaisedOps, SunkenOps, Scaled;
  }

  /** A click on a card of two lines or fewer changes no pixel of the content. */
  lemma {:induction false} ShortClickSame(c: Canvas, posts: seq<Post>, looks: seq<Look>, i: nat, n: nat)
    requires c.stride == c.w > 0 && c.h > 0 && n <= |posts| == |looks| && i < |posts|
    requires CaptionCount(c.f.cs, c.w, posts[i]) <= 2
    ensures Content(c, Toggled(posts, i), looks, n) == Content(c, posts, looks, n)
    decreases n
  {
    hide CardOps, Top, CaptionCount, Painted, ViewOf, Background;
    if n > 0 {
      var j := n - 1;
      ShortClickSame(c, posts, looks, i, j);
      TopToggled(c.f.cs, c.w, posts, i, j);
      if j == i {
        ShortCardSame(c.f.cs, EDGE, Top(c.f.cs, c.w - MARGINS, posts, j), c.w, posts[j], looks[j]);
      }
    }
  }

  // ---- Whose texts are drawn ---------------------------------------------

  /** The strings among the steps of a drawing. */
  function TextsOf(ops: seq<Op>): (rs: seq<TextRun>)
    decreases |ops|
  {
    if ops == [] then []
    else (if ops[0].TextOp? then [ops[0].run] else []) + TextsOf(ops[1..])
  }

  lemma {:induction false} TextsAppend(a: seq<Op>, b: seq<Op>)
    ensures TextsOf(a + b) == TextsOf(a) + TextsOf(b)
    decreases |a|
  {
    if a == [] {
      assert a + b == b && [] + TextsOf(b) == TextsOf(b);
    } else {
      var (first, rest) := (if a[0].TextOp? then [a[0].run] else [], a[1..]);
      assert (a + b)[0] == a[0] && (a + b)[1..] == rest + b;
      TextsAppend(rest, b);
      assert TextsOf(a + b) == first + TextsOf(rest + b);
      assert first + (TextsOf(rest) + TextsOf(b)) == first + TextsOf(rest) + TextsOf(b);
    }
  }

  lemma {:induction false} NoTextsOf(ops: seq<Op>)
    requires forall op :: op in ops ==> !op.TextOp?
    ensures TextsOf(ops) == []
    decreases |ops|
  {
    if ops != [] {
      NoTextsOf(ops[1..]);
    }
  }

  lemma {:induction false} TextsOfWrites(rs: seq<TextRun>)
    ensures TextsOf(Writes(rs)) == rs
    decreases |rs|
  {
    if rs != [] {
      assert Writes(rs)[1..] == Writes(rs[1..]);
      TextsOfWrites(rs[1..]);
    }
  }

  lemma HeaderTextsOf(x: int, y: int, w: int, h: int, v: View)
    requires v.loc.None?
    ensures TextsOf(HeaderOps(x, y, w, h, v)) == [TextRun(x + 40, y + 11, v.user, C_TEXT)]
  {
    hide RaisedOps, SunkenOps, GradientOps, DotOps;
    var (cx, cw, cy) := (x + POST_PAD, w - 2 * POST_PAD, y + POST_PAD);
    var front := RaisedOps(Rect(x, y, w, h)) + SunkenOps(Rect(cx, cy, 24, 24)) +
                 GradientOps(Rect(cx + 2, cy + 2, 20, 20), v.top, v.bot);
    var user := [TextOp(TextRun(cx + 32, cy + 3, v.user, C_TEXT))];
    HeaderPlain(Rect(x, y, w, h), Rect(cx, cy, 24, 24), Rect(cx + 2, cy + 2, 20, 20), v, cx, cw, cy);
    assert HeaderOps(x, y, w, h, v) == front + user + DotOps(cx, cw, cy, 3);
    TextsAppend(front, user);
    TextsAppend(front + user, DotOps(cx, cw, cy, 3));
    assert user[1..] == [];
  }

  lemma HeaderPlain(a: Rect, b: Rect, r: Rect, v: View, cx: int, cw: int, cy: int)
    ensures TextsOf(RaisedOps(a) + SunkenOps(b) + GradientOps(r, v.top, v.bot)) == []
    ensures TextsOf(DotOps(cx, cw, cy, 3)) == []
  {
    hide Shade, Sides, Dot;
    NoTextsOf(RaisedOps(a) + SunkenOps(b) + GradientOps(r, v.top, v.bot));
    NoTextsOf(DotOps(cx, cw, cy, 3));
  }

  lemma WellPlain(well: Rect, cx: int, cw: int, iy: int, v: View)
    ensures TextsOf(WellOps(well, v)) == [] && TextsOf(ActionOps(cx, cw, iy, v.liked)) == []
  {
    hide Shade, Scaled, Sides, Outline;
    NoTextsOf(WellOps(well, v));
    NoTextsOf(ActionOps(cx, cw, iy, v.liked));
  }

  /**
   * The strings of the i-th post's card, in order: its username in the header, its likes, its username again and its
   * caption's lines below the photo and the icons.
   */
  lemma PostTexts(c: Canvas, posts: seq<Post>, looks: seq<Look>, i: nat)
    requires i < |posts| == |looks|
    ensures
      var (p, y) := (posts[i], Top(c.f.cs, c.w - MARGINS, posts, i));
      var (w, cy) := (c.w - 12, y + 40 + (c.w - 28) + 26);
      TextsOf(PostOps(c, posts, looks, i)) ==
        [TextRun(46, y + 11, p.username, C_TEXT)] +
        BlockRuns(c.f.cs, 14, cy, c.w - 28, p.likes, p.username, p.caption, None, p.expanded)
  {
    hide BlockRuns, HeaderOps, WellOps, ActionOps, Writes, CardHeight, Top;
    var (p, y) := (posts[i], Top(c.f.cs, c.w - MARGINS, posts, i));
    var (w, v) := (c.w - MARGINS, ViewOf(posts[i], looks[i]));
    var (cx, cw) := (EDGE + POST_PAD, w - 2 * POST_PAD);
    var h := CardHeight(c.f.cs, w, v.caption, v.comments.Some?, v.expanded);
    var rs := BlockRuns(c.f.cs, cx, y + 40 + cw + 26, cw, v.likes, v.user, v.caption, v.comments, v.expanded);
    var (header, well) := (HeaderOps(EDGE, y, w, h, v), WellOps(Rect(cx, y + 40, cw, cw), v));
    var actions := ActionOps(cx, cw, y + 40 + cw + 6, v.liked);
    HeaderTextsOf(EDGE, y, w, h, v);
    WellPlain(Rect(cx, y + 40, cw, cw), cx, cw, y + 40 + cw + 6, v);
    TextsOfWrites(rs);
    TextsAppend(header, well);
    TextsAppend(header + well, actions);
    TextsAppend(header + well + actions, Writes(rs));
  }

  // ---- The viewport ------------------------------------------------------

  function ViewHeight(h: int): (v: int) {
    h - BAR_H - NAV_H
  }

  /** The clamp draw_scrollable applies to the scroll offset. */
  function Clamped(scroll: int, contentH: int, viewH: int): (s: int) {
    var m := if contentH - viewH < 0 then 0 else contentH - viewH;
    var a := if scroll < 0 then 0 else scroll;
    if a > m then m else a
  }

  /** What the content leaves on a window row, before the bars are drawn over it. */
  function Scrolled(cs: Charset, width: int, h: int, posts: seq<Post>, scroll: int, held: bool, row: int): (s: Seen) {
    var contentH := ContentHeight(cs, width, posts);
    var r := row - BAR_H + Clamped(scroll, contentH, ViewHeight(h));
    if ViewHeight(h) > 0 && held && BAR_H <= row < BAR_H + ViewHeight(h) && r < contentH
    then ContentShows(cs, width, posts, r) else Ground
  }

  /** What a window row shows at last: the app bar, the rule below it and the nav bar cover the content. */
  function WindowShows(cs: Charset, width: int, h: int, posts: seq<Post>, scroll: int, held: bool,
                       row: int): (s: Seen) {
    if row >= h - NAV_H then NavBar
    else if row < BAR_H then AppBar
    else if row == BAR_H then AppRule
    else Scrolled(cs, width, h, posts, scroll, held, row)
  }

  /** The rows of the content that surface_blit copies into the viewport, clipped to the content. */
  lemma StripRows(w: int, contentH: int, scroll: int, viewH: int, x: int, row: int)
    requires 0 <= x < w && 0 <= scroll
    ensures Covered(Rect(0, scroll, w, viewH), 0, BAR_H, w, contentH, x, row)
      <==> BAR_H <= row < BAR_H + viewH && row - BAR_H + scroll < contentH
    ensures SourceOf(Rect(0, scroll, w, viewH), 0, BAR_H, x, row) == (x, row - BAR_H + scroll)
  {
  }

  /** Every cell of a window shows its row's label. */
  ghost predicate WindowIs(px: seq<Pixel>, w: int, h: int, stride: int, plain: bool, shows: int -> Seen) {
    && stride >= w > 0
    && forall k :: 0 <= k < |px| && Column(stride, k) < w && Row(stride, k) < h ==>
      CellShows(px[k], Column(stride, k), w, plain, shows(Row(stride, k)))
  }

  /** The content strip over the background shows what the viewport's rows should. */
  lemma StripShows(cs: Charset, px: seq<Pixel>, w: int, h: int, stride: int, spx: seq<Pixel>, posts: seq<Post>,
                   scroll: int)
    requires stride >= w > 0 && ViewHeight(h) > 0 && |spx| == w * ContentHeight(cs, w, posts)
    requires forall k :: 0 <= k < |px| && Column(stride, k) < w && Row(stride, k) < h ==> px[k] == C_FACE
    requires forall k :: 0 <= k < |spx| && Row(w, k) < ContentHeight(cs, w, posts) ==>
      CellShows(spx[k], Column(w, k), w, TextsStay(cs, w, posts), ContentShows(cs, w, posts, Row(w, k)))
    ensures
      var contentH := ContentHeight(cs, w, posts);
      var s := Clamped(scroll, contentH, ViewHeight(h));
      var out := BlitCells(Copy, px, w, h, stride, spx, w, contentH, w, 0, BAR_H, Rect(0, s, w, ViewHeight(h)));
      WindowIs(out, w, h, stride, TextsStay(cs, w, posts), row => Scrolled(cs, w, h, posts, scroll, true, row))
  {
    hide ContentHeight, ContentShows, TextsStay, CellShows;
    var contentH := ContentHeight(cs, w, posts);
    var s := Clamped(scroll, contentH, ViewHeight(h));
    var sr := Rect(0, s, w, ViewHeight(h));
    var out := BlitCells(Copy, px, w, h, stride, spx, w, contentH, w, 0, BAR_H, sr);
    forall k | 0 <= k < |px| && Column(stride, k) < w && Row(stride, k) < h
      ensures CellShows(out[k], Column(stride, k), w, TextsStay(cs, w, posts),
                        Scrolled(cs, w, h, posts, scroll, true, Row(stride, k)))
    {
      StripCell(cs, px, w, h, stride, spx, posts, scroll, k);
    }
  }

  lemma StripCell(cs: Charset, px: seq<Pixel>, w: int, h: int, stride: int, spx: seq<Pixel>, posts: seq<Post>,
                  scroll: int,
                  k: nat)
    requires stride >= w > 0 && ViewHeight(h) > 0 && |spx| == w * ContentHeight(cs, w, posts)
    requires k < |px| && Column(stride, k) < w && Row(stride, k) < h && px[k] == C_FACE
    requires forall j :: 0 <= j < |spx| && Row(w, j) < ContentHeight(cs, w, posts) ==>
      CellShows(spx[j], Column(w, j), w, TextsStay(cs, w, posts), ContentShows(cs, w, posts, Row(w, j)))
    ensures
      var contentH := ContentHeight(cs, w, posts);
      var s := Clamped(scroll, contentH, ViewHeight(h));
      var out := BlitCells(Copy, px, w, h, stride, spx, w, contentH, w, 0, BAR_H, Rect(0, s, w, ViewHeight(h)));
      CellShows(out[k], Column(stride, k), w, TextsStay(cs, w, posts),
                Scrolled(cs, w, h, posts, scroll, true, Row(stride, k)))
  {
    hide *;
    var contentH := ContentHeight(cs, w, posts);
    var s := Clamped(scroll, contentH, ViewHeight(h));
    var (x, row) := (Column(stride, k), Row(stride, k));
    var r := row - BAR_H + s;
    ClampedLow(scroll, contentH, ViewHeight(h));
    StripAt(px, w, h, stride, spx, contentH, s, k);
    ScrolledIs(cs, w, h, posts, scroll, row);
    if BAR_H <= row < BAR_H + ViewHeight(h) && r < contentH {
      StripSource(w, contentH, x, r);
    } else {
      GroundCell(x, w, TextsStay(cs, w, posts));
    }
  }

  lemma ClampedLow(scroll: int, contentH: int, viewH: int)
    ensures Clamped(scroll, contentH, viewH) >= 0
  {
  }

  lemma ScrolledIs(cs: Charset, w: int, h: int, posts: seq<Post>, scroll: int, row: int)
    requires ViewHeight(h) > 0
    ensures
      var contentH := ContentHeight(cs, w, posts);
      var r := row - BAR_H + Clamped(scroll, contentH, ViewHeight(h));
      Scrolled(cs, w, h, posts, scroll, true, row) ==
        if BAR_H <= row < BAR_H + ViewHeight(h) && r < contentH then ContentShows(cs, w, posts, r) else Ground
  {
    hide ContentHeight, ContentShows, Clamped;
  }

  /** One cell of the blit. */
  lemma StripAt(px: seq<Pixel>, w: int, h: int, stride: int, spx: seq<Pixel>, contentH: int, s: int, k: nat)
    requires stride >= w > 0 && 0 <= s && k < |px| && Column(stride, k) < w && Row(stride, k) < h
    ensures 0 <= Column(stride, k)
    ensures
      var r := Row(stride, k) - BAR_H + s;
      BlitCells(Copy, px, w, h, stride, spx, w, contentH, w, 0, BAR_H, Rect(0, s, w, ViewHeight(h)))[k] ==
        if BAR_H <= Row(stride, k) < BAR_H + ViewHeight(h) && r < contentH
        then Sample(spx, w, Column(stride, k), r) else px[k]
  {
    assert 0 <= Column(stride, k);
    hide Column, Row, Covered, SourceOf, Sample;
    StripRows(w, contentH, s, ViewHeight(h), Column(stride, k), Row(stride, k));
  }

  /** The content cell a viewport cell takes. */
  lemma StripSource(w: int, contentH: int, x: int, r: int)
    requires 0 <= x < w && 0 <= r < contentH
    ensures
      var k := Cell(w, x, r);
      0 <= k < w * contentH && Column(w, k) == x && Row(w, k) == r
    ensures forall spx: seq<Pixel> :: |spx| == w * contentH ==> Sample(spx, w, x, r) == spx[Cell(w, x, r)]
  {
    CellInRange(w, w, contentH, x, r);
    assert (contentH - 1) * w + w == w * contentH;
    CellAt(w, x, r, Cell(w, x, r));
    hide Cell, Column, Row;
  }

  /** Every viewport cell below the rule is its content cell, or background past the content's end. */
  ghost predicate ShowsContent(px: seq<Pixel>, w: int, h: int, stride: int, content: seq<Pixel>, contentH: int,
                               scroll: int) {
    && stride >= w > 0
    && forall k :: 0 <= k < |px| && Column(stride, k) < w && BAR_H < Row(stride, k) < h - NAV_H ==>
      var r := Row(stride, k) - BAR_H + scroll;
      px[k] == if r < contentH then Sample(content, w, Column(stride, k), r) else C_FACE
  }

  lemma StripIsContent(px: seq<Pixel>, w: int, h: int, stride: int, spx: seq<Pixel>, contentH: int, scroll: int)
    requires stride >= w > 0 && ViewHeight(h) > 0 && 0 <= scroll
    requires forall k :: 0 <= k < |px| && Column(stride, k) < w && Row(stride, k) < h ==> px[k] == C_FACE
    ensures
      var out := BlitCells(Copy, px, w, h, stride, spx, w, contentH, w, 0, BAR_H, Rect(0, scroll, w, ViewHeight(h)));
      ShowsContent(out, w, h, stride, spx, contentH, scroll)
  {
    hide Column, Row, BlitCells, Sample;
    var out := BlitCells(Copy, px, w, h, stride, spx, w, contentH, w, 0, BAR_H, Rect(0, scroll, w, ViewHeight(h)));
    forall k | 0 <= k < |out| && Column(stride, k) < w && BAR_H < Row(stride, k) < h - NAV_H
      ensures
        var r := Row(stride, k) - BAR_H + scroll;
        out[k] == if r < contentH then Sample(spx, w, Column(stride, k), r) else C_FACE
    {
      StripAt(px, w, h, stride, spx, contentH, scroll, k);
    }
  }

  /** The bars leave the rows between them alone. */
  lemma BarsLeaveContent(px: seq<Pixel>, was: seq<Pixel>, w: int, h: int, stride: int, content: seq<Pixel>,
                         contentH: int,
                         scroll: int)
    requires stride >= w > 0 && Bars(px, was, w, h, stride)
    requires ShowsContent(was, w, h, stride, content, contentH, scroll)
    ensures ShowsContent(px, w, h, stride, content, contentH, scroll)
  {
    hide Column, Row, Sample;
  }

  lemma GroundCell(x: int, w: int, plain: bool)
    ensures CellShows(C_FACE, x, w, plain, Ground)
  {
  }

  // ---- The bars ----------------------------------------------------------

  /** A cell under the bars and beside them: the bars and the rule are drawn, the rest is as before. */
  predicate Barred(p: Pixel, was: Pixel, y: int, h: int) {
    if y >= h - NAV_H then NavTone(p)
    else if y < BAR_H then p == C_IG_BLUE || p == C_HILIGHT
    else if y == BAR_H then p == C_DARK
    else p == was
  }

  ghost predicate Bars(px: seq<Pixel>, was: seq<Pixel>, w: int, h: int, stride: int)
    requires stride >= w > 0
  {
    && |px| == |was|
    && forall k :: 0 <= k < |px| && Column(stride, k) < w && Row(stride, k) < h ==>
      Barred(px[k], was[k], Row(stride, k), h)
  }

  /** The bars' colors by rows. */
  lemma ChromeTones(f: Face, w: int, h: int, a: int, b: int, was: Pixel)
    requires 0 <= a < w && 0 <= b < h
    ensures
      var p := ChromeColor(f, w, h, a, b);
      && Barred(if p.Some? then p.value else was, was, b, h)
      && (p.None? <==> BAR_H < b < h - NAV_H)
  {
    hide TitleInks;
    if TitleInks(f, a, b) {
      TitleRows(f, a, b);
    }
  }

  /** Whatever was drawn before, the bars and the rule cover their rows, and nothing else changes. */
  lemma ChromeBars(c: Canvas, was: seq<Pixel>)
    requires c.Valid()
    ensures Bars(Chromed(c, was), was, c.w, c.h, c.stride)
  {
    hide Chromed, ChromeColor, Barred;
    var out := Chromed(c, was);
    forall k | 0 <= k < |was| && Column(c.stride, k) < c.w && Row(c.stride, k) < c.h
      ensures Barred(out[k], was[k], Row(c.stride, k), c.h)
    {
      ChromeCells(c, was, k);
      ChromeTones(c.f, c.w, c.h, Column(c.stride, k), Row(c.stride, k), was[k]);
    }
  }

  /** A fill over the full width, cell by cell. */
  lemma FilledRows(px: seq<Pixel>, w: int, h: int, stride: int, y: int, n: int, color: Pixel, k: nat)
    requires stride >= w > 0 && k < |px| && Column(stride, k) < w && Row(stride, k) < h
    ensures 0 <= Row(stride, k)
    ensures FillCells(px, w, h, stride, Rect(0, y, w, n), color)[k] ==
      if y <= Row(stride, k) < y + n then color else px[k]
  {
    assert 0 <= Column(stride, k) && 0 <= Row(stride, k);
    hide Column, Row;
  }

  lemma BarsOver(cs: Charset, px: seq<Pixel>, was: seq<Pixel>, w: int, h: int, stride: int, posts: seq<Post>,
                 scroll: int,
                 held: bool)
    requires stride >= w > 0 && Bars(px, was, w, h, stride)
    requires WindowIs(was, w, h, stride, TextsStay(cs, w, posts), row => Scrolled(cs, w, h, posts, scroll, held, row))
    ensures WindowIs(px, w, h, stride, TextsStay(cs, w, posts), row => WindowShows(cs, w, h, posts, scroll, held, row))
  {
    hide Column, Row, Scrolled, TextsStay;
  }

  // ---- The window --------------------------------------------------------

  /** Whether surface_alloc gives the content surface. */
  predicate Allocated(cs: Charset, width: int, posts: seq<Post>, memory: bool) {
    memory && width * ContentHeight(cs, width, posts) <= MAX_PIXELS
  }

  /** The surface the whole content is painted on. */
  function ContentCanvas(f: Face, w: int, posts: seq<Post>): (c: Canvas) {
    Canvas(f, w, ContentHeight(f.cs, w, posts), w)
  }

  /** The window shows this feed's content, cell by cell, at this scroll offset. */
  ghost predicate ShowsFeed(f: Face, px: seq<Pixel>, w: int, h: int, stride: int, posts: seq<Post>, looks: seq<Look>,
                            scroll: int)
    requires w > 0 && |posts| == |looks|
  {
    var c := ContentCanvas(f, w, posts);
    && c.h > 0
    && ShowsContent(px, w, h, stride, Content(c, posts, looks, |posts|), c.h, Clamped(scroll, c.h, ViewHeight(h)))
  }

  // ---- Every pixel -------------------------------------------------------

  /** The color of the content's pixel in column `a` of row `r` after the first n cards: what the last card that reaches
      it has on top there, or the background. */
  ghost function ContentColor(f: Face, w: int, posts: seq<Post>, looks: seq<Look>, n: nat, a: int, r: int): (p: Pixel)
    requires n <= |posts| == |looks|
  {
    if n == 0 then Gray(192)
    else
      var v := ViewOf(posts[n - 1], looks[n - 1]);
      var p := CardColor(f, 6, Top(f.cs, w - 12, posts, n - 1), w - 12, v, a, r);
      if p.Some? then p.value else ContentColor(f, w, posts, looks, n - 1, a, r)
  }

  /** The content cell by cell, however the cards' texts reach into each other. */
  lemma {:induction false} ContentCells(c: Canvas, posts: seq<Post>, looks: seq<Look>, n: nat, k: nat)
    requires c.stride == c.w > 0 && c.h > 0 && n <= |posts| == |looks| && k < c.w * c.h && Row(c.w, k) < c.h
    ensures Content(c, posts, looks, n)[k] == ContentColor(c.f, c.w, posts, looks, n, Column(c.w, k), Row(c.w, k))
    decreases n
  {
    hide Painted, PostOps, CardColor, Content, Column, Row, Top, ViewOf;
    InColumns(c.w, k);
    if n == 0 {
      ContentOfNone(c, posts, looks);
    } else {
      ContentCells(c, posts, looks, n - 1, k);
      ContentStep(c, posts, looks, n - 1);
      PostCell(c, Content(c, posts, looks, n - 1), posts, looks, n - 1, k);
    }
  }

  lemma InColumns(stride: int, k: nat)
    requires stride > 0
    ensures 0 <= Column(stride, k) < stride && 0 <= Row(stride, k)
  {
  }

  /** One more card over what is there. */
  lemma PostCell(c: Canvas, px: seq<Pixel>, posts: seq<Post>, looks: seq<Look>, i: nat, k: nat)
    requires c.Valid() && i < |posts| == |looks| && k < |px| && OnCanvas(c, k)
    ensures
      var p := CardColor(c.f, 6, Top(c.f.cs, c.w - 12, posts, i), c.w - 12, ViewOf(posts[i], looks[i]),
                         Column(c.stride, k), Row(c.stride, k));
      Painted(c, px, PostOps(c, posts, looks, i))[k] == if p.Some? then p.value else px[k]
  {
    hide Painted, CardOps, CardColor, Top, Column, Row, ViewOf;
    CardCells(c, px, EDGE, Top(c.f.cs, c.w - MARGINS, posts, i), c.w - MARGINS, ViewOf(posts[i], looks[i]), k);
  }

  /** The color of the window's pixel (a, b): the bars, then the content `scroll` rows down, as far as it goes. */
  ghost function ScreenColor(f: Face, w: int, h: int, posts: seq<Post>, looks: seq<Look>, scroll: int, held: bool,
                             a: int, b: int): (p: Pixel)
    requires |posts| == |looks|
  {
    var bar, r := ChromeColor(f, w, h, a, b), b - 30 + scroll;
    if bar.Some? then bar.value
    else if held && r < ContentHeight(f.cs, w, posts) then ContentColor(f, w, posts, looks, |posts|, a, r)
    else Gray(192)
  }

  /** Every pixel of the window. */
  ghost predicate Pictured(f: Face, px: seq<Pixel>, w: int, h: int, stride: int, posts: seq<Post>, looks: seq<Look>,
                           scroll: int, held: bool)
    requires stride >= w > 0 && |posts| == |looks|
  {
    forall k :: 0 <= k < |px| && Column(stride, k) < w && Row(stride, k) < h ==>
      px[k] == ScreenColor(f, w, h, posts, looks, scroll, held, Column(stride, k), Row(stride, k))
  }

  lemma ContentPixel(f: Face, w: int, posts: seq<Post>, looks: seq<Look>, a: int, r: int)
    requires w > 0 && |posts| == |looks| && 0 <= a < w && 0 <= r < ContentHeight(f.cs, w, posts)
    ensures Sample(Content(ContentCanvas(f, w, posts), posts, looks, |posts|), w, a, r)
      == ContentColor(f, w, posts, looks, |posts|, a, r)
  {
    hide ContentHeight, ContentColor, Content, Sample, Column, Row;
    var c := ContentCanvas(f, w, posts);
    StripSource(w, c.h, a, r);
    ContentCells(c, posts, looks, |posts|, Cell(w, a, r));
  }

  /** One pixel after the bars are drawn over the viewport. */
  lemma ScreenPixel(c: Canvas, px: seq<Pixel>, posts: seq<Post>, looks: seq<Look>, scroll: int, held: bool, k: nat)
    requires c.Valid() && |posts| == |looks| && k < |px| && OnCanvas(c, k) && 0 <= scroll
    requires held ==>
      ContentCanvas(c.f, c.w, posts).h > 0 && ShowsContent(px, c.w, c.h, c.stride,
        Content(ContentCanvas(c.f, c.w, posts), posts, looks, |posts|), ContentHeight(c.f.cs, c.w, posts), scroll)
    requires !held ==> px[k] == C_FACE
    ensures Chromed(c, px)[k] ==
      ScreenColor(c.f, c.w, c.h, posts, looks, scroll, held, Column(c.stride, k), Row(c.stride, k))
  {
    hide ContentHeight, ContentColor, Content, Column, Row, Chromed, ChromeColor, ShowsContent;
    ChromeCells(c, px, k);
    if ChromeColor(c.f, c.w, c.h, Column(c.stride, k), Row(c.stride, k)).None? {
      BetweenBars(c, px, posts, looks, scroll, held, k);
    }
  }

  /** A pixel that no bar reaches. */
  lemma BetweenBars(c: Canvas, px: seq<Pixel>, posts: seq<Post>, looks: seq<Look>, scroll: int, held: bool, k: nat)
    requires c.Valid() && |posts| == |looks| && k < |px| && OnCanvas(c, k) && 0 <= scroll
    requires ChromeColor(c.f, c.w, c.h, Column(c.stride, k), Row(c.stride, k)).None?
    requires held ==>
      ContentCanvas(c.f, c.w, posts).h > 0 && ShowsContent(px, c.w, c.h, c.stride,
        Content(ContentCanvas(c.f, c.w, posts), posts, looks, |posts|), ContentHeight(c.f.cs, c.w, posts), scroll)
    requires !held ==> px[k] == C_FACE
    ensures
      var r := Row(c.stride, k) - 30 + scroll;
      px[k] ==
        if held && r < ContentHeight(c.f.cs, c.w, posts)
        then ContentColor(c.f, c.w, posts, looks, |posts|, Column(c.stride, k), r) else Gray(192)
  {
    hide ContentHeight, ContentColor, Content, Sample, Column, Row, ChromeColor, Barred, ShowsContent;
    var (a, b) := (Column(c.stride, k), Row(c.stride, k));
    InColumns(c.stride, k);
    ChromeTones(c.f, c.w, c.h, a, b, px[k]);
    if held {
      var content := Content(ContentCanvas(c.f, c.w, posts), posts, looks, |posts|);
      var r := b - 30 + scroll;
      ViewportCell(px, c.w, c.h, c.stride, content, ContentHeight(c.f.cs, c.w, posts), scroll, k);
      if r < ContentHeight(c.f.cs, c.w, posts) {
        ContentPixel(c.f, c.w, posts, looks, a, r);
      }
    }
  }

  lemma ViewportCell(px: seq<Pixel>, w: int, h: int, stride: int, content: seq<Pixel>, contentH: int, scroll: int,
                     k: nat)
    requires ShowsContent(px, w, h, stride, content, contentH, scroll)
    requires k < |px| && Column(stride, k) < w && BAR_H < Row(stride, k) < h - NAV_H
    ensures
      var r := Row(stride, k) - BAR_H + scroll;
      px[k] == if r < contentH then Sample(content, w, Column(stride, k), r) else C_FACE
  {
    hide Column, Row, Sample;
  }

  lemma ScreenPixels(c: Canvas, px: seq<Pixel>, posts: seq<Post>, looks: seq<Look>, scroll: int, held: bool)
    requires c.Valid() && |posts| == |looks| && 0 <= scroll
    requires held ==>
      ContentCanvas(c.f, c.w, posts).h > 0 && ShowsContent(px, c.w, c.h, c.stride,
        Content(ContentCanvas(c.f, c.w, posts), posts, looks, |posts|), ContentHeight(c.f.cs, c.w, posts), scroll)
    requires !held ==>
      forall k :: 0 <= k < |px| && Column(c.stride, k) < c.w && Row(c.stride, k) < c.h ==> px[k] == C_FACE
    ensures Pictured(c.f, Chromed(c, px), c.w, c.h, c.stride, posts, looks, scroll, held)
  {
    hide ContentHeight, Content, Column, Row, Chromed, ScreenColor, ShowsContent;
    forall k | 0 <= k < |px| && Column(c.stride, k) < c.w && Row(c.stride, k) < c.h
      ensures Chromed(c, px)[k] ==
        ScreenColor(c.f, c.w, c.h, posts, looks, scroll, held, Column(c.stride, k), Row(c.stride, k))
    {
      ScreenPixel(c, px, posts, looks, scroll, held, k);
    }
  }

  /** Without a viewport neither the content surface nor the offset makes a difference. */
  lemma NoViewport(f: Face, px: seq<Pixel>, w: int, h: int, stride: int, posts: seq<Post>, looks: seq<Look>,
                   s: int, held: bool, s': int, held': bool)
    requires stride >= w > 0 && |posts| == |looks| && ViewHeight(h) <= 0
    requires Pictured(f, px, w, h, stride, posts, looks, s, held)
    ensures Pictured(f, px, w, h, stride, posts, looks, s', held')
  {
    hide Column, Row, ContentHeight, ContentColor, OnNavIcon, OnEdge, TitleInks;
  }

  /** What is on the surface before the bars are drawn. */
  ghost predicate Viewed(f: Face, px: seq<Pixel>, w: int, h: int, stride: int, posts: seq<Post>, looks: seq<Look>,
                         scroll: int, held: bool)
    requires stride >= w > 0 && |posts| == |looks|
  {
    && WindowIs(px, w, h, stride, TextsStay(f.cs, w, posts), row => Scrolled(f.cs, w, h, posts, scroll, held, row))
    && if held && ViewHeight(h) > 0 then ShowsFeed(f, px, w, h, stride, posts, looks, scroll)
       else forall k :: 0 <= k < |px| && Column(stride, k) < w && Row(stride, k) < h ==> px[k] == C_FACE
  }

  /** The first part of draw_scrollable: the background and, on it, the strip of the content in view. */
  method DrawViewport(f: Face, fb: Surface, scroll: int, posts: array<Post>, looks: seq<Look>, photos: seq<Surface?>,
                      memory: bool)
    requires fb.Valid()
    requires |looks| == |photos| == posts.Length && forall i :: 0 <= i < |photos| ==> Holds(photos[i], looks[i].shot)
    requires forall i :: 0 <= i < |photos| && photos[i] != null ==> photos[i].pixels != fb.pixels
    modifies fb.pixels
    ensures Viewed(f, fb.pixels[..], fb.w, fb.h, fb.stride, posts[..], looks, scroll,
                   Allocated(f.cs, fb.w, posts[..], memory))
  {
    hide ContentShows, ContentHeight, BlitCells, CellShows, TextsStay, FillCells, ShowsContent, Content, WindowIs,
         Shown;
    ghost var ps, start := posts[..], fb.pixels[..];
    var w, h := fb.w, fb.h;
    ghost var held := Allocated(f.cs, w, ps, memory);
    Fill(fb, C_FACE);
    AllFace(start, w, h, fb.stride);
    var contentH := ContentHeightReal(f, w, posts);
    var viewH := h - BAR_H - NAV_H;
    ContentNotEmpty(f.cs, w, ps);
    if viewH <= 0 || !held {
      GroundShows(f.cs, fb.pixels[..], w, h, fb.stride, ps, scroll, held);
    }
    ghost var c := ContentCanvas(f, w, ps);
    if viewH > 0 {
      var maxScroll := contentH - viewH;
      if maxScroll < 0 {
        maxScroll := 0;
      }
      var s := scroll;
      if s < 0 {
        s := 0;
      }
      if s > maxScroll {
        s := maxScroll;
      }
      var content := NoSurface();
      var rc := content.Alloc(w, if contentH > 0 then contentH else 1, memory);
      if rc == 0 {
        FillRealPosts(f, content, posts, looks, photos);
        ContentIsShown(c, ps, looks, |ps|);
        AllShown(f.cs, content.pixels[..], w, contentH, ps);
        StripShows(f.cs, fb.pixels[..], w, h, fb.stride, content.pixels[..], ps, scroll);
        StripIsContent(fb.pixels[..], w, h, fb.stride, content.pixels[..], contentH, s);
        Blit(fb, 0, BAR_H, content, Some(Rect(0, s, w, viewH)));
      }
    }
  }

  /** What the bars make of it. */
  lemma BarsOverView(f: Face, px: seq<Pixel>, w: int, h: int, stride: int, posts: seq<Post>, looks: seq<Look>,
                     scroll: int, held: bool)
    requires stride >= w > 0 && |posts| == |looks| && Viewed(f, px, w, h, stride, posts, looks, scroll, held)
    ensures
      var out := Chromed(Canvas(f, w, h, stride), px);
      && WindowIs(out, w, h, stride, TextsStay(f.cs, w, posts),
                  row => WindowShows(f.cs, w, h, posts, scroll, held, row))
      && (held && ViewHeight(h) > 0 ==> ShowsFeed(f, out, w, h, stride, posts, looks, scroll))
      && Pictured(f, out, w, h, stride, posts, looks,
                  Clamped(scroll, ContentHeight(f.cs, w, posts), ViewHeight(h)), held)
  {
    hide ContentHeight, Bars, ShowsContent, Content, WindowIs, Pictured, Chromed, Clamped, Column, Row, Scrolled,
         WindowShows, TextsStay;
    var c, out := Canvas(f, w, h, stride), Chromed(Canvas(f, w, h, stride), px);
    var contentH := ContentHeight(f.cs, w, posts);
    var s := Clamped(scroll, contentH, ViewHeight(h));
    ClampedLow(scroll, contentH, ViewHeight(h));
    ScreenPixels(c, px, posts, looks, s, held && ViewHeight(h) > 0);
    if ViewHeight(h) <= 0 {
      NoViewport(f, out, w, h, stride, posts, looks, s, false, s, held);
    }
    ChromeBars(c, px);
    BarsOver(f.cs, out, px, w, h, stride, posts, scroll, held);
    if held && ViewHeight(h) > 0 {
      var content := Content(ContentCanvas(f, w, posts), posts, looks, |posts|);
      BarsLeaveContent(out, px, w, h, stride, content, contentH, s);
    }
  }

  /** draw_scrollable for the real feed; `memory` says whether the content surface's pixels can be had. */
  method DrawScrollable(f: Face, fb: Surface, scroll: int, posts: array<Post>, looks: seq<Look>, photos: seq<Surface?>,
                        memory: bool)
    requires fb.Valid()
    requires |looks| == |photos| == posts.Length && forall i :: 0 <= i < |photos| ==> Holds(photos[i], looks[i].shot)
    requires forall i :: 0 <= i < |photos| && photos[i] != null ==> photos[i].pixels != fb.pixels
    modifies fb.pixels
    ensures
      var (w, h, ps) := (fb.w, fb.h, posts[..]);
      var held := Allocated(f.cs, w, ps, memory);
      && WindowIs(fb.pixels[..], w, h, fb.stride, TextsStay(f.cs, w, ps),
                  row => WindowShows(f.cs, w, h, ps, scroll, held, row))
      && (held && ViewHeight(h) > 0 ==> ShowsFeed(f, fb.pixels[..], w, h, fb.stride, ps, looks, scroll))
      && Pictured(f, fb.pixels[..], w, h, fb.stride, ps, looks,
                  Clamped(scroll, ContentHeight(f.cs, w, ps), ViewHeight(h)), held)
  {
    hide Viewed, WindowIs, ShowsFeed, Pictured, Chromed, Allocated;
    DrawViewport(f, fb, scroll, posts, looks, photos, memory);
    BarsOverView(f, fb.pixels[..], fb.w, fb.h, fb.stride, posts[..], looks, scroll,
                 Allocated(f.cs, fb.w, posts[..], memory));
    DrawChrome(f, fb);
  }

  lemma AllFace(px: seq<Pixel>, w: int, h: int, stride: int)
    requires stride >= w > 0
    ensures
      var out := FillCells(px, w, h, stride, Rect(0, 0, w, h), C_FACE);
      forall k :: 0 <= k < |px| && Column(stride, k) < w && Row(stride, k) < h ==> out[k] == C_FACE
  {
    hide Column, Row, FillCells;
    forall k | 0 <= k < |px| && Column(stride, k) < w && Row(stride, k) < h
      ensures FillCells(px, w, h, stride, Rect(0, 0, w, h), C_FACE)[k] == C_FACE
    {
      FilledRows(px, w, h, stride, 0, h, C_FACE, k);
    }
  }

  /** The bare background shows what the rows should where there is no viewport or no content surface. */
  lemma GroundShows(cs: Charset, px: seq<Pixel>, w: int, h: int, stride: int, posts: seq<Post>, scroll: int, held: bool)
    requires stride >= w > 0 && (ViewHeight(h) <= 0 || !held)
    requires forall k :: 0 <= k < |px| && Column(stride, k) < w && Row(stride, k) < h ==> px[k] == C_FACE
    ensures WindowIs(px, w, h, stride, TextsStay(cs, w, posts), row => Scrolled(cs, w, h, posts, scroll, held, row))
  {
    hide Column, Row, TextsStay;
  }

  lemma ContentNotEmpty(cs: Charset, width: int, posts: seq<Post>)
    requires width >= 0
    ensures ContentHeight(cs, width, posts) >= POST_GAP
  {
    hide Height;
    if |posts| > 0 {
      CardsApart(cs, width - MARGINS, posts, 0, |posts|);
    }
  }
}
