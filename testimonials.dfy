/**
 * The testimonial carousel of js/testimonials.js: a circular index over the
 * testimonials, a transition lock that blocks overlapping navigations, and the
 * position class each avatar carries relative to the centred testimonial.
 *
 * The lock is released by a timer in the page; here that release is the
 * explicit event `Carousel.Unlock`.
 */
module Testimonials {

  import Arith

  /** One record of the embedded testimonial list. */
  datatype Testimonial = Testimonial(name: string, role: string, quote: string, image: string)

  /** The six places an avatar can be drawn in, relative to the centre. */
  datatype Position = Center | Left | Right | FarLeft | FarRight | Hidden

  /** The class an avatar carries for each position. */
  function ClassName(p: Position): string
  {
    match p
    case Center => "pos-center"
    case Left => "pos-left"
    case Right => "pos-right"
    case FarLeft => "pos-far-left"
    case FarRight => "pos-far-right"
    case Hidden => "pos-hidden"
  }

  /** The six position classes, all removed before one is added. */
  const PositionClasses: set<string> :=
    {"pos-center", "pos-left", "pos-right", "pos-far-left", "pos-far-right", "pos-hidden"}

  /** The class every avatar carries from the moment it is rendered. */
  const AvatarClass: string := "avatar-item"

  lemma ClassNameIsPositionClass(p: Position, q: Position)
    ensures ClassName(p) in PositionClasses
    ensures ClassName(p) == ClassName(q) <==> p == q
    ensures AvatarClass !in PositionClasses
  {
  }

  /** The position on the other side of the centre. */
  function Mirror(p: Position): Position
  {
    match p
    case Center => Center
    case Left => Right
    case Right => Left
    case FarLeft => FarRight
    case FarRight => FarLeft
    case Hidden => Hidden
  }

  // ---------------------------------------------------------------------
  // Circular offset and position class

  /**
   * The signed circular offset of `index` from `center` among `total` items:
   * the raw difference, moved down by `total` when it exceeds half the ring
   * and then up by `total` when it is below minus half the ring. The
   * comparisons with `total / 2` (a real division) are written doubled.
   */
  function Offset(index: int, center: int, total: int): (d: int)
    ensures total > 0 ==> (d - (index - center)) % total == 0
    ensures 0 <= index < total && 0 <= center < total ==> -total <= 2 * d <= total
  {
    var diff := index - center;
    var diff' := if 2 * diff > total then diff - total else diff;
    var d := if 2 * diff' < -total then diff' + total else diff';
    if total > 0 then Arith.ModTurns(total); d else d
  }

  /**
   * The position an avatar at `index` takes when `center` is centred; only
   * the centred avatar itself gets `Center`.
   */
  function PositionOf(index: int, center: int, total: int): (p: Position)
    ensures 0 <= index < total && 0 <= center < total ==> (p == Center <==> index == center)
  {
    match Offset(index, center, total)
    case 0 => Center
    case -1 => Left
    case 1 => Right
    case -2 => FarLeft
    case 2 => FarRight
    case _ => Hidden
  }

  /**
   * The offset is the only value congruent to `index - center` that lies
   * strictly inside half a ring on either side.
   */
  lemma OffsetUnique(index: int, center: int, total: int, e: int)
    requires 0 <= index < total && 0 <= center < total
    requires (e - (index - center)) % total == 0
    requires -total < 2 * e < total
    ensures Offset(index, center, total) == e
  {
    var d := Offset(index, center, total);
    var raw := index - center;
    var q := (e - raw) / total;
    assert e - raw == q * total;
    var c := if d == raw then 0 else if d < raw then -1 else 1;
    assert d - raw == c * total;
    assert e - d == (q - c) * total;
    Arith.MulBounded(q - c, total);
  }

  /** The avatar `k` steps clockwise of the centre is at offset `k`. */
  lemma OffsetOfStep(center: int, k: int, total: int)
    requires 0 <= center < total
    requires -total < 2 * k < total
    ensures Offset((center + k) % total, center, total) == k
  {
    var index := (center + k) % total;
    Arith.ModShift(center + k, total);
    Arith.ModTurns(total);
    OffsetUnique(index, center, total, k);
  }

  /** Swapping the avatar and the centre negates the offset. */
  lemma OffsetAntisymmetric(index: int, center: int, total: int)
    requires 0 <= index < total && 0 <= center < total
    ensures Offset(center, index, total) == -Offset(index, center, total)
  {
  }

  /** Position classes are symmetric around the centred avatar. */
  lemma PositionSymmetric(index: int, center: int, total: int)
    requires 0 <= index < total && 0 <= center < total
    ensures PositionOf(center, index, total) == Mirror(PositionOf(index, center, total))
  {
  }

  /**
   * Which neighbour of the centre gets which class: the next and previous
   * avatars (for at least three items) are right and left, and the second
   * next and second previous (for at least five) are far right and far left.
   */
  lemma NeighbourPositions(center: int, total: int)
    requires 3 <= total && 0 <= center < total
    ensures PositionOf((center + 1) % total, center, total) == Right
    ensures PositionOf((center - 1) % total, center, total) == Left
    ensures total >= 5 ==> PositionOf((center + 2) % total, center, total) == FarRight
    ensures total >= 5 ==> PositionOf((center - 2) % total, center, total) == FarLeft
  {
    OffsetOfStep(center, 1, total);
    OffsetOfStep(center, -1, total);
    if total >= 5 {
      OffsetOfStep(center, 2, total);
      OffsetOfStep(center, -2, total);
    }
  }

  /**
   * An avatar's class list after its position classes are reassigned:
   * all six are removed and the one for its offset is added.
   */
  function AssignPositionClass(classes: set<string>, index: int, center: int, total: int): (r: set<string>)
    ensures r * PositionClasses == {ClassName(PositionOf(index, center, total))}
    ensures r - PositionClasses == classes - PositionClasses
  {
    ClassNameIsPositionClass(PositionOf(index, center, total), Center);
    (classes - PositionClasses) + {ClassName(PositionOf(index, center, total))}
  }

  // ---------------------------------------------------------------------
  // Navigation targets

  /**
   * The index `navigateTo` lands on: below zero goes to the last item, at or
   * past the end goes to the first; anything else is kept.
   */
  function WrapIndex(newIndex: int, total: int): (r: int)
    requires total > 0
    ensures 0 <= r < total
    ensures 0 <= newIndex < total ==> r == newIndex
  {
    if newIndex < 0 then total - 1
    else if newIndex >= total then 0
    else newIndex
  }

  /** Where `navigateNext` goes from `i`: the next index round the ring. */
  function Successor(i: int, total: int): (r: int)
    requires 0 <= i < total
    ensures r == (i + 1) % total
  {
    Arith.ModShift(i + 1, total);
    WrapIndex(i + 1, total)
  }

  /** Where `navigatePrev` goes from `i`: the previous index round the ring. */
  function Predecessor(i: int, total: int): (r: int)
    requires 0 <= i < total
    ensures r == (i - 1) % total
  {
    Arith.ModShift(i - 1, total);
    WrapIndex(i - 1, total)
  }

  /** Going forward then back, or back then forward, returns to the start. */
  lemma SuccessorPredecessorInverse(i: int, total: int)
    requires 0 <= i < total
    ensures Predecessor(Successor(i, total), total) == i
    ensures Successor(Predecessor(i, total), total) == i
  {
  }

  /** The index after `k` forward navigations from `i`. */
  function Forward(i: int, k: nat, total: int): (r: int)
    requires 0 <= i < total
    ensures 0 <= r < total
  {
    if k == 0 then i else Successor(Forward(i, k - 1, total), total)
  }

  /** `k` forward navigations from `i` land on `(i + k) mod total`. */
  lemma {:induction false} ForwardIsModular(i: int, k: nat, total: int)
    requires 0 <= i < total
    ensures Forward(i, k, total) == (i + k) % total
  {
    if k == 0 {
      Arith.ModShift(i, total);
    } else {
      ForwardIsModular(i, k - 1, total);
      Arith.ModStep(i + k - 1, total);
      Arith.ModStep((i + k - 1) % total, total);
    }
  }

  /** `total` forward navigations go once round the ring. */
  lemma ForwardFullCircle(i: int, total: int)
    requires 0 <= i < total
    ensures Forward(i, total, total) == i
  {
    ForwardIsModular(i, total, total);
    Arith.ModUnique(i + total, total, 1, i);
  }

  // ---------------------------------------------------------------------
  // Inputs

  /** What an input asks the carousel to do. */
  datatype Move = Prev | Next | Stay

  /** Horizontal travel a touch must exceed to count as a swipe. */
  const MinSwipeDistance: int := 50

  /**
   * A touch that starts at `startX` and ends at `endX`: more than the minimum
   * distance leftwards asks for the next testimonial, more than it rightwards
   * for the previous one, anything shorter for nothing.
   */
  function SwipeMove(startX: int, endX: int): (m: Move)
    ensures m == Next <==> startX - endX > MinSwipeDistance
    ensures m == Prev <==> startX - endX < -MinSwipeDistance
    ensures m == Stay <==> -MinSwipeDistance <= startX - endX <= MinSwipeDistance
  {
    var diff := startX - endX;
    var distance := if diff < 0 then -diff else diff;
    if distance > MinSwipeDistance then
      if diff > 0 then Next else Prev
    else Stay
  }

  /** A key press: the left arrow goes back, the right arrow forward. */
  function KeyMove(key: string): (m: Move)
    ensures m == Prev <==> key == "ArrowLeft"
    ensures m == Next <==> key == "ArrowRight"
  {
    if key == "ArrowLeft" then Prev
    else if key == "ArrowRight" then Next
    else Stay
  }

  // ---------------------------------------------------------------------
  // The carousel state

  class Carousel {
    const testimonials: seq<Testimonial>
    /** The class list of each rendered avatar, in document order. */
    const avatars: array<set<string>>
    var currentIndex: int
    var isTransitioning: bool

    /**
     * The index is on the ring, there is one avatar per testimonial, and every
     * avatar carries exactly its avatar class and the position class of its
     * offset from the current index.
     */
    ghost predicate Valid()
      reads this, avatars
    {
      && |testimonials| >= 3
      && avatars.Length == |testimonials|
      && 0 <= currentIndex < |testimonials|
      && forall j :: 0 <= j < avatars.Length ==> Placed(avatars[j], j, currentIndex)
    }

    /** The avatar at `j` carries its avatar class and the position class for `center`, nothing else. */
    ghost predicate Placed(classes: set<string>, j: int, center: int)
      reads this
    {
      classes == {AvatarClass, ClassName(PositionOf(j, center, |testimonials|))}
    }

    /** In a valid carousel exactly the avatar at the current index is centred. */
    lemma CenteredAvatar(j: int)
      requires Valid() && 0 <= j < avatars.Length
      ensures "pos-center" in avatars[j] <==> j == currentIndex
    {
    }

    /** Start on the third testimonial, unlocked, and render one avatar per item. */
    constructor (items: seq<Testimonial>)
      requires |items| >= 3
      ensures Valid() && fresh(avatars)
      ensures testimonials == items
      ensures currentIndex == 2 && !isTransitioning
      ensures forall j :: 0 <= j < avatars.Length ==>
        avatars[j] == {AvatarClass, ClassName(PositionOf(j, 2, |items|))}
    {
      testimonials := items;
      currentIndex := 2;
      isTransitioning := false;
      var rendered := new set<string>[|items|];
      ClassNameIsPositionClass(Center, Center);
      for j := 0 to |items|
        invariant forall m :: 0 <= m < j ==>
          rendered[m] == AssignPositionClass({AvatarClass}, m, 2, |items|)
      {
        rendered[j] := AssignPositionClass({AvatarClass}, j, 2, |items|);
      }
      avatars := rendered;
    }

    /**
     * While locked nothing changes; otherwise the lock is taken, the index
     * becomes the wrapped target and every avatar's position classes are
     * reassigned around it.
     */
    method NavigateTo(newIndex: int)
      requires Valid()
      modifies this, avatars
      ensures Valid() && isTransitioning
      ensures old(isTransitioning) ==>
        currentIndex == old(currentIndex) && avatars[..] == old(avatars[..])
      ensures !old(isTransitioning) ==>
        && currentIndex == WrapIndex(newIndex, |testimonials|)
        && forall j :: 0 <= j < avatars.Length ==>
             avatars[j] == AssignPositionClass(old(avatars[j]), j, currentIndex, |testimonials|)
    {
      if isTransitioning {
        return;
      }
      isTransitioning := true;
      currentIndex := WrapIndex(newIndex, |testimonials|);
      ClassNameIsPositionClass(Center, Center);
      for j := 0 to avatars.Length
        modifies avatars
        invariant forall m :: 0 <= m < j ==>
          avatars[m] == AssignPositionClass(old(avatars[m]), m, currentIndex, |testimonials|)
        invariant forall m :: j <= m < avatars.Length ==> avatars[m] == old(avatars[m])
      {
        avatars[j] := AssignPositionClass(avatars[j], j, currentIndex, |testimonials|);
      }
    }

    /** The end of a transition: the lock is released and nothing else changes. */
    method Unlock()
      requires Valid()
      modifies this
      ensures Valid() && !isTransitioning
      ensures currentIndex == old(currentIndex)
    {
      isTransitioning := false;
    }

    /** The previous-arrow button. */
    method NavigatePrev()
      requires Valid()
      modifies this, avatars
      ensures Valid() && isTransitioning
      ensures currentIndex ==
        if old(isTransitioning) then old(currentIndex) else Predecessor(old(currentIndex), |testimonials|)
      ensures old(isTransitioning) ==> avatars[..] == old(avatars[..])
      ensures !old(isTransitioning) ==> forall j :: 0 <= j < avatars.Length ==>
        avatars[j] == AssignPositionClass(old(avatars[j]), j, currentIndex, |testimonials|)
    {
      NavigateTo(currentIndex - 1);
    }

    /** The next-arrow button. */
    method NavigateNext()
      requires Valid()
      modifies this, avatars
      ensures Valid() && isTransitioning
      ensures currentIndex ==
        if old(isTransitioning) then old(currentIndex) else Successor(old(currentIndex), |testimonials|)
      ensures old(isTransitioning) ==> avatars[..] == old(avatars[..])
      ensures !old(isTransitioning) ==> forall j :: 0 <= j < avatars.Length ==>
        avatars[j] == AssignPositionClass(old(avatars[j]), j, currentIndex, |testimonials|)
    {
      NavigateTo(currentIndex + 1);
    }

    /**
     * A click on the avatar at `index`: ignored during a transition and on
     * the centred avatar, otherwise that avatar is centred.
     */
    method ClickAvatar(index: int)
      requires Valid() && 0 <= index < |testimonials|
      modifies this, avatars
      ensures Valid()
      ensures old(isTransitioning) || index == old(currentIndex) ==>
        && currentIndex == old(currentIndex)
        && isTransitioning == old(isTransitioning)
        && avatars[..] == old(avatars[..])
      ensures !old(isTransitioning) && index != old(currentIndex) ==>
        && currentIndex == index && isTransitioning
        && forall j :: 0 <= j < avatars.Length ==>
             avatars[j] == AssignPositionClass(old(avatars[j]), j, index, |testimonials|)
    {
      if !isTransitioning && index != currentIndex {
        NavigateTo(index);
      }
    }

    /** Move the way an input asked; `Stay` changes nothing. */
    method Apply(m: Move)
      requires Valid()
      modifies this, avatars
      ensures Valid()
      ensures m == Stay ==>
        && currentIndex == old(currentIndex)
        && isTransitioning == old(isTransitioning)
        && avatars[..] == old(avatars[..])
      ensures m != Stay ==> isTransitioning
      ensures m != Stay && old(isTransitioning) ==>
        currentIndex == old(currentIndex) && avatars[..] == old(avatars[..])
      ensures m != Stay && !old(isTransitioning) ==> forall j :: 0 <= j < avatars.Length ==>
        avatars[j] == AssignPositionClass(old(avatars[j]), j, currentIndex, |testimonials|)
      ensures m == Prev && !old(isTransitioning) ==>
        currentIndex == Predecessor(old(currentIndex), |testimonials|)
      ensures m == Next && !old(isTransitioning) ==>
        currentIndex == Successor(old(currentIndex), |testimonials|)
    {
      match m
      case Prev => NavigatePrev();
      case Next => NavigateNext();
      case Stay =>
    }

    /** A key press anywhere on the page. */
    method KeyDown(key: string)
      requires Valid()
      modifies this, avatars
      ensures Valid()
      ensures KeyMove(key) == Stay ==>
        && currentIndex == old(currentIndex)
        && isTransitioning == old(isTransitioning)
        && avatars[..] == old(avatars[..])
      ensures KeyMove(key) != Stay ==> isTransitioning
      ensures KeyMove(key) != Stay && old(isTransitioning) ==>
        currentIndex == old(currentIndex) && avatars[..] == old(avatars[..])
      ensures KeyMove(key) != Stay && !old(isTransitioning) ==> forall j :: 0 <= j < avatars.Length ==>
        avatars[j] == AssignPositionClass(old(avatars[j]), j, currentIndex, |testimonials|)
      ensures key == "ArrowLeft" && !old(isTransitioning) ==>
        currentIndex == Predecessor(old(currentIndex), |testimonials|)
      ensures key == "ArrowRight" && !old(isTransitioning) ==>
        currentIndex == Successor(old(currentIndex), |testimonials|)
    {
      Apply(KeyMove(key));
    }

    /** The end of a touch that started at `startX` and ended at `endX`. */
    method HandleSwipe(startX: int, endX: int)
      requires Valid()
      modifies this, avatars
      ensures Valid()
      ensures SwipeMove(startX, endX) == Stay ==>
        && currentIndex == old(currentIndex)
        && isTransitioning == old(isTransitioning)
        && avatars[..] == old(avatars[..])
      ensures SwipeMove(startX, endX) != Stay ==> isTransitioning
      ensures SwipeMove(startX, endX) != Stay && old(isTransitioning) ==>
        currentIndex == old(currentIndex) && avatars[..] == old(avatars[..])
      ensures SwipeMove(startX, endX) != Stay && !old(isTransitioning) ==> forall j :: 0 <= j < avatars.Length ==>
        avatars[j] == AssignPositionClass(old(avatars[j]), j, currentIndex, |testimonials|)
      ensures startX - endX > MinSwipeDistance && !old(isTransitioning) ==>
        currentIndex == Successor(old(currentIndex), |testimonials|)
      ensures startX - endX < -MinSwipeDistance && !old(isTransitioning) ==>
        currentIndex == Predecessor(old(currentIndex), |testimonials|)
    {
      Apply(SwipeMove(startX, endX));
    }
  }
}
