/** A project card: which picture area it shows (a gradient placeholder with
    the title's first two characters, or the project's image), whether the
    device counts as mobile, and the pointer offset that drives the 3D tilt. */
module ProjectCard {

  import opened Optional

  /** A project as listed on the page. */
  datatype Project = Project(
    id: int,
    title: string,
    description: string,
    technologies: seq<string>,
    imageUrl: string,
    projectUrl: Option<string>,
    githubUrl: Option<string>)

  /** The three background gradients of a placeholder. */
  datatype Gradient = BluePurple | EmeraldTeal | OrangeAmber

  /** What the picture area of the card shows. */
  datatype Picture = Placeholder(gradient: Gradient, text: string) | Image(src: string)

  /** The bounding box of the card element, in viewport pixels. */
  datatype Box = Box(left: real, top: real, width: real, height: real)

  const PlaceholderPrefix: string := "/project-"

  /** Widths below this many pixels count as mobile. */
  const MobileBreakpoint: real := 768.0

  /** The JavaScript expression `a % 3`: JavaScript's remainder truncates
      toward zero, so its sign is the sign of `a` (Dafny's own `%` is never
      negative). */
  function JsRem3(a: int): (r: int)
    ensures -3 < r < 3
    ensures a >= 0 ==> r == a % 3
    ensures a < 0 ==> r == if a % 3 == 0 then 0 else a % 3 - 3
  {
    if a >= 0 then a % 3 else -((-a) % 3)
  }

  /** The placeholder gradient picked from the project id. Only ids one
      more than a multiple of three that are not negative get emerald-teal. */
  function GradientFor(id: int): (g: Gradient)
    ensures g == EmeraldTeal <==> id >= 0 && id % 3 == 1
  {
    var m := JsRem3(id);
    if m == 0 then BluePurple else if m == 1 then EmeraldTeal else OrangeAmber
  }

  /** For ids that are not negative the gradient cycles with period three,
      in the order blue-purple, emerald-teal, orange-amber. */
  lemma GradientOfNonNegative(id: int)
    requires id >= 0
    ensures GradientFor(id) == [BluePurple, EmeraldTeal, OrangeAmber][id % 3]
    ensures GradientFor(id + 3) == GradientFor(id)
  {
  }

  /** A negative id has a remainder of 0, -1 or -2, so its card is never
      emerald-teal and is orange-amber unless the id is a multiple of three. */
  lemma GradientOfNegative(id: int)
    requires id < 0
    ensures GradientFor(id) == if id % 3 == 0 then BluePurple else OrangeAmber
  {
  }

  /** `startsWith('/project-')`. */
  predicate StartsWithPrefix(url: string)
  {
    |PlaceholderPrefix| <= |url| && url[..|PlaceholderPrefix|] == PlaceholderPrefix
  }

  /** The placeholder is used exactly for image paths of the form
      "/project-" followed by anything. */
  lemma {:induction false} PlaceholderIff(url: string)
    ensures StartsWithPrefix(url) <==> exists rest: string :: url == PlaceholderPrefix + rest
  {
    if StartsWithPrefix(url) {
      var rest := url[|PlaceholderPrefix|..];
      assert url == PlaceholderPrefix + rest;
    }
    if exists rest: string :: url == PlaceholderPrefix + rest {
      var rest: string :| url == PlaceholderPrefix + rest;
      assert url[..|PlaceholderPrefix|] == PlaceholderPrefix;
    }
  }

  /** `title.substring(0, 2)`: the first two characters, or the whole title
      when it is shorter. */
  function Initials(title: string): (r: string)
    ensures |r| == if |title| < 2 then |title| else 2
    ensures r <= title
  {
    if |title| < 2 then title else title[..2]
  }

  /** The picture area of a card. */
  function PictureOf(p: Project): (r: Picture)
    ensures r.Placeholder? <==> StartsWithPrefix(p.imageUrl)
    ensures r.Placeholder? ==> r.gradient == GradientFor(p.id) && r.text == Initials(p.title)
    ensures r.Image? ==> r.src == p.imageUrl
  {
    if StartsWithPrefix(p.imageUrl) then Placeholder(GradientFor(p.id), Initials(p.title))
    else Image(p.imageUrl)
  }

  /** The state of one card: the mobile flag and the two motion values that
      the tilt is derived from. */
  class Card {
    var isMobile: bool
    var x: real
    var y: real

    /** A card starts on the desktop path with no tilt; the mount effect then
        runs `CheckIfMobile` once. */
    constructor ()
      ensures !isMobile && x == 0.0 && y == 0.0
    {
      isMobile := false;
      x, y := 0.0, 0.0;
    }

    /** Run on mount and on every resize. */
    method CheckIfMobile(innerWidth: real)
      modifies this
      ensures isMobile <==> innerWidth < MobileBreakpoint
      ensures x == old(x) && y == old(y)
    {
      isMobile := innerWidth < MobileBreakpoint;
    }

    /** Pointer moved over the card. `card` is the card element, absent when
        the ref is not attached. */
    method HandleMouseMove(card: Option<Box>, clientX: real, clientY: real)
      modifies this
      ensures isMobile == old(isMobile)
      ensures card.None? || old(isMobile) ==> x == old(x) && y == old(y)
      ensures card.Some? && !old(isMobile) ==>
        x == clientX - (card.value.left + card.value.width / 2.0) &&
        y == clientY - (card.value.top + card.value.height / 2.0)
    {
      if card.None? || isMobile {
        return;
      }
      var rect := card.value;
      var centerX := rect.left + rect.width / 2.0;
      var centerY := rect.top + rect.height / 2.0;
      x := clientX - centerX;
      y := clientY - centerY;
    }

    /** Pointer left the card: the tilt is reset. */
    method HandleMouseLeave()
      modifies this
      ensures x == 0.0 && y == 0.0 && isMobile == old(isMobile)
    {
      x, y := 0.0, 0.0;
    }
  }
}
