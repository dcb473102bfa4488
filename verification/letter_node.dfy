/**
 The `LetterNode` value type: one recognised letter together with the rotated
 rectangle that is its footprint on the board. OpenCV's `float` coordinates are
 modelled as exact reals.
 */
module LetterNodes {

  /** `cv::Point2f`: a point in image coordinates. */
  datatype Point2f = Point2f(x: real, y: real)

  /** `cv::Size2f`: the extent of a rectangle. */
  datatype Size2f = Size2f(width: real, height: real)

  /** `cv::RotatedRect`: centre, size and rotation angle in degrees. */
  datatype RotatedRect = RotatedRect(center: Point2f, size: Size2f, angle: real)

  /** A detected letter and its footprint. */
  datatype LetterNode = LetterNode(letter: char, rect: RotatedRect)

  /** The default constructor: a blank letter on an empty rectangle at the origin. */
  function DefaultNode(): (n: LetterNode)
    ensures n.letter == '\0'
    ensures n.rect.center.x == 0.0 && n.rect.center.y == 0.0
    ensures n.rect.size.width == 0.0 && n.rect.size.height == 0.0
    ensures n.rect.angle == 0.0
  {
    LetterNode('\0', RotatedRect(Point2f(0.0, 0.0), Size2f(0.0, 0.0), 0.0))
  }

  /** `cv::Point2f::operator==`: both coordinates agree. */
  predicate PointEq(a: Point2f, b: Point2f)
  {
    a.x == b.x && a.y == b.y
  }

  /** `cv::Size2f::operator==`: both extents agree. */
  predicate SizeEq(a: Size2f, b: Size2f)
  {
    a.width == b.width && a.height == b.height
  }

  /** `LetterNode::operator==`: letter, centre, size and angle all agree. */
  predicate NodeEq(a: LetterNode, b: LetterNode)
  {
    && a.letter == b.letter
    && PointEq(a.rect.center, b.rect.center)
    && SizeEq(a.rect.size, b.rect.size)
    && a.rect.angle == b.rect.angle
  }

  /** The source's equality is exactly structural equality of the six fields,
      so the built-in equality on `LetterNode` may key maps and sets in its place. */
  lemma NodeEqIsStructural(a: LetterNode, b: LetterNode)
    ensures NodeEq(a, b) <==> a == b
    ensures NodeEq(a, b) <==>
              && a.letter == b.letter
              && a.rect.center.x == b.rect.center.x && a.rect.center.y == b.rect.center.y
              && a.rect.size.width == b.rect.size.width && a.rect.size.height == b.rect.size.height
              && a.rect.angle == b.rect.angle
  {
  }

  /** `operator==` is an equivalence relation. Its reflexivity is what makes a
      node equal to a second node constructed from the same letter and rectangle. */
  lemma NodeEqIsEquivalence(a: LetterNode, b: LetterNode, c: LetterNode)
    ensures NodeEq(a, a)
    ensures NodeEq(a, b) ==> NodeEq(b, a)
    ensures NodeEq(a, b) && NodeEq(b, c) ==> NodeEq(a, c)
    ensures forall l: char, r: RotatedRect :: NodeEq(LetterNode(l, r), LetterNode(l, r))
  {
  }

  /** Nodes that differ only in their letter, or only in their centre, are unequal. */
  lemma SingleFieldChangeUnequal(n: LetterNode, l: char, c: Point2f)
    ensures l != n.letter ==> !NodeEq(n, n.(letter := l))
    ensures c != n.rect.center ==> !NodeEq(n, n.(rect := n.rect.(center := c)))
  {
  }

  /** The defaulted copy constructor: a member-wise copy. */
  function Copy(other: LetterNode): (n: LetterNode)
    ensures NodeEq(n, other)
  {
    LetterNode(other.letter,
      RotatedRect(Point2f(other.rect.center.x, other.rect.center.y),
                  Size2f(other.rect.size.width, other.rect.size.height),
                  other.rect.angle))
  }

  /** The defaulted copy assignment `target = source`: the new value of `target`.
      Nothing of the previous value of `target` survives. */
  function Assign(target: LetterNode, source: LetterNode): (n: LetterNode)
    ensures NodeEq(n, source)
    ensures NodeEq(n, target) <==> NodeEq(source, target)
  {
    Copy(source)
  }

  /** Self-assignment leaves the node unchanged, and re-assigning a node makes
      it equal the new source and no longer the old one (unless they were equal). */
  lemma AssignmentBehaviour(n: LetterNode, a: LetterNode, b: LetterNode)
    ensures Assign(n, n) == n
    ensures var x := Assign(Assign(n, a), b); NodeEq(x, b) && (NodeEq(x, a) <==> NodeEq(a, b))
  {
  }

  /** `std::size_t`, taken as 64 bits wide. */
  type SizeT = bv64

  /** `std::hash<LetterNode>`: the six field hashes combined by XOR and left
      shifts. `std::hash<char>` and `std::hash<float>` are implementation
      defined, so they are parameters. */
  function Hash(n: LetterNode, hashChar: char -> SizeT, hashFloat: real -> SizeT): (h: SizeT)
  {
    var h1 := hashChar(n.letter);
    var h2 := hashFloat(n.rect.center.x);
    var h3 := hashFloat(n.rect.center.y);
    var h4 := hashFloat(n.rect.size.width);
    var h5 := hashFloat(n.rect.size.height);
    var h6 := hashFloat(n.rect.angle);
    h1 ^ (h2 << 1) ^ (h3 << 2) ^ (h4 << 3) ^ (h5 << 4) ^ (h6 << 5)
  }

  /** The hash reads only the fields that `operator==` compares, so equal nodes
      hash equally whatever the field hashes are. */
  lemma HashRespectsEquality(a: LetterNode, b: LetterNode, hashChar: char -> SizeT, hashFloat: real -> SizeT)
    requires NodeEq(a, b)
    ensures Hash(a, hashChar, hashFloat) == Hash(b, hashChar, hashFloat)
  {
  }
}
