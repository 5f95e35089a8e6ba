/** The picture `printTree` draws (main.cpp:169-207): one line per node, the
    right subtree above its parent and the left subtree below, each line made of
    the indentation, a branch mark, the colour tag and the key in decimal. */
module Rendering {
  import opened RbTree

  /** `getColorString` (main.cpp:198-200). */
  function ColorString(c: Color): (r: string)
    ensures |r| == 4 && r[0] == '[' && r[2] == ']' && r[3] == ' '
    ensures c == Red ==> r[1] == 'R'
    ensures c == Black ==> r[1] == 'B'
  {
    if c == Red then "[R] " else "[B] "
  }

  /** The colour a tag stands for, if it is one. */
  function TagColor(tag: string): (r: Option<Color>)
  {
    if tag == "[R] " then Some(Red) else if tag == "[B] " then Some(Black) else None
  }

  datatype Option<T> = None | Some(value: T)

  /** The tag names the colour back: no two colours share one. */
  lemma ColorStringReadsBack(c: Color)
    ensures TagColor(ColorString(c)) == Some(c)
  {
  }

  /** One line of the picture before the key is formatted. */
  datatype Line = Line(indent: string, branch: string, color: Color, key: int)

  /** `inorderHelper(node, ss, indent, last)` on the subtree `t`: the right
      subtree six columns further in, then the node (branch `\--` when it is the
      last child drawn at its level, `/--` otherwise), then the left subtree under
      the indentation the branch continues with. */
  function Render(t: Tree, indent: string, last: bool): (r: seq<Line>)
    ensures |r| == Size(t)
  {
    match t
    case Leaf => []
    case Node(c, l, _, k, r) =>
      Render(r, indent + "      ", false) +
      [Line(indent, if last then "\\--" else "/--", c, k)] +
      Render(l, indent + (if last then "   " else "|   ") + "   ", true)
  }

  function Keys(lines: seq<Line>): seq<int>
  {
    if lines == [] then [] else [lines[0].key] + Keys(lines[1..])
  }

  function Reverse(s: seq<int>): (r: seq<int>)
    ensures |r| == |s|
  {
    if s == [] then [] else Reverse(s[1..]) + [s[0]]
  }

  lemma {:induction false} KeysConcat(a: seq<Line>, b: seq<Line>)
    ensures Keys(a + b) == Keys(a) + Keys(b)
  {
    if a == [] {
      assert a + b == b;
    } else {
      assert (a + b)[1..] == a[1..] + b;
      KeysConcat(a[1..], b);
    }
  }

  lemma {:induction false} ReverseConcat(a: seq<int>, b: seq<int>)
    ensures Reverse(a + b) == Reverse(b) + Reverse(a)
  {
    if a == [] {
      assert a + b == b;
      assert Reverse(b) + Reverse(a) == Reverse(b);
    } else {
      assert (a + b)[1..] == a[1..] + b;
      ReverseConcat(a[1..], b);
    }
  }

  /** Every line carries one of the two branch marks. */
  lemma {:induction false} RenderBranches(t: Tree, indent: string, last: bool)
    ensures forall ln :: ln in Render(t, indent, last) ==> ln.branch == "\\--" || ln.branch == "/--"
  {
    match t
    case Leaf =>
    case Node(_, l, _, _, r) =>
      RenderBranches(r, indent + "      ", false);
      RenderBranches(l, indent + (if last then "   " else "|   ") + "   ", true);
  }

  /** The keys of a node's picture: those above it, its own, those below. */
  lemma KeysJoin(a: seq<Line>, x: Line, b: seq<Line>)
    ensures Keys(a + [x] + b) == Keys(a) + [x.key] + Keys(b)
  {
    KeysConcat(a + [x], b);
    KeysConcat(a, [x]);
    assert Keys([x]) == [x.key] + Keys([]);
  }

  /** Reversing an in-order sequence puts the right part first. */
  lemma ReverseJoin(l: seq<int>, k: int, r: seq<int>)
    ensures Reverse(l + [k] + r) == Reverse(r) + [k] + Reverse(l)
  {
    ReverseConcat(l + [k], r);
    ReverseConcat(l, [k]);
    assert Reverse([k]) == Reverse([]) + [k];
  }

  /** Read top to bottom, the picture lists the keys in reverse in-order. */
  lemma {:induction false} RenderKeys(t: Tree, indent: string, last: bool)
    ensures Keys(Render(t, indent, last)) == Reverse(InOrder(t))
  {
    match t
    case Leaf =>
    case Node(c, l, _, k, r) =>
      var ri, li := indent + "      ", indent + (if last then "   " else "|   ") + "   ";
      var mid := [Line(indent, if last then "\\--" else "/--", c, k)];
      var A, B := Render(r, ri, false), Render(l, li, true);
      assert Render(t, indent, last) == A + mid + B;
      RenderKeys(r, ri, false);
      RenderKeys(l, li, true);
      KeysJoin(A, mid[0], B);
      ReverseJoin(InOrder(l), k, InOrder(r));
  }

  /** Every line of a subtree's picture starts with the indentation it was given. */
  lemma {:induction false} RenderIndents(t: Tree, indent: string, last: bool)
    ensures forall ln :: ln in Render(t, indent, last) ==> indent <= ln.indent
  {
    match t
    case Leaf =>
    case Node(c, l, _, k, r) =>
      var ri, li := indent + "      ", indent + (if last then "   " else "|   ") + "   ";
      RenderIndents(r, ri, false);
      RenderIndents(l, li, true);
  }

  /** The subtree's root is drawn right after the lines of its right subtree,
      at the indentation it was given, with the branch `last` selects. */
  lemma RenderRoot(t: Tree, indent: string, last: bool)
    requires t.Node?
    ensures Size(t.right) < |Render(t, indent, last)|
    ensures Render(t, indent, last)[Size(t.right)] == Line(indent, if last then "\\--" else "/--", t.color, t.key)
  {
  }

  /** A right child is drawn with `/--` six columns further in; a left child
      with `\--` under the indentation its parent's branch continues with. */
  lemma RenderChildMarkers(t: Tree, indent: string, last: bool)
    requires t.Node?
    ensures t.right.Node? ==>
      (Size(t.right.right) < |Render(t, indent, last)| &&
       Render(t, indent, last)[Size(t.right.right)] ==
         Line(indent + "      ", "/--", t.right.color, t.right.key))
    ensures t.left.Node? ==>
      (Size(t.right) + 1 + Size(t.left.right) < |Render(t, indent, last)| &&
       Render(t, indent, last)[Size(t.right) + 1 + Size(t.left.right)] ==
         Line(indent + (if last then "   " else "|   ") + "   ", "\\--", t.left.color, t.left.key))
  {
    var ri, li := indent + "      ", indent + (if last then "   " else "|   ") + "   ";
    var above, below := Render(t.right, ri, false), Render(t.left, li, true);
    var me := Line(indent, if last then "\\--" else "/--", t.color, t.key);
    assert Render(t, indent, last) == above + [me] + below;
    if t.right.Node? {
      RenderRoot(t.right, ri, false);
      assert (above + [me] + below)[Size(t.right.right)] == above[Size(t.right.right)];
    }
    if t.left.Node? {
      RenderRoot(t.left, li, true);
      assert (above + [me] + below)[|above| + 1 + Size(t.left.right)] == below[Size(t.left.right)];
    }
  }

  /** In a search tree the picture's keys never increase from top to bottom. */
  lemma RenderDescending(t: Tree, indent: string, last: bool)
    requires Ordered(t)
    ensures forall i, j :: 0 <= i < j < |Render(t, indent, last)| ==>
      Render(t, indent, last)[j].key <= Render(t, indent, last)[i].key
  {
    var lines := Render(t, indent, last);
    var s := InOrder(t);
    OrderedIffSorted(t);
    RenderKeys(t, indent, last);
    forall i, j | 0 <= i < j < |lines| ensures lines[j].key <= lines[i].key {
      KeyAt(lines, i);
      KeyAt(lines, j);
      ReverseAt(s, i);
      ReverseAt(s, j);
    }
  }

  lemma {:induction false} KeyAt(lines: seq<Line>, i: nat)
    requires i < |lines|
    ensures |Keys(lines)| == |lines| && Keys(lines)[i] == lines[i].key
  {
    if i > 0 {
      KeyAt(lines[1..], i - 1);
    } else if |lines| > 1 {
      KeyAt(lines[1..], 0);
    }
  }

  lemma {:induction false} ReverseAt(s: seq<int>, i: nat)
    requires i < |s|
    ensures Reverse(s)[i] == s[|s| - 1 - i]
  {
    if i < |s| - 1 {
      ReverseAt(s[1..], i);
    }
  }

  predicate AllDigits(s: string)
  {
    forall i :: 0 <= i < |s| ==> '0' <= s[i] <= '9'
  }

  /** The digits of `n` in base ten, most significant first, with no leading
      zero. */
  function Digits(n: nat): (s: string)
    ensures |s| >= 1 && AllDigits(s)
    ensures s[0] == '0' ==> n == 0
  {
    if n < 10 then [DigitChar(n)] else Digits(n / 10) + [DigitChar(n % 10)]
  }

  function DigitChar(d: nat): (ch: char)
    requires d < 10
    ensures '0' <= ch <= '9' && ch as int - '0' as int == d
  {
    (d + '0' as int) as char
  }

  /** `std::to_string` of an integer: a minus sign before the digits of its
      magnitude when it is negative. */
  function Decimal(n: int): (s: string)
    ensures |s| >= 1 && (s[0] == '-' <==> n < 0)
  {
    if n < 0 then "-" + Digits(-n) else Digits(n)
  }

  /** The value of a string of decimal digits. */
  function DigitsValue(s: string): nat
    requires AllDigits(s)
  {
    if s == [] then 0
    else
      assert '0' <= s[|s| - 1];
      DigitsValue(s[..|s| - 1]) * 10 + (s[|s| - 1] as int - '0' as int)
  }

  /** A decimal numeral: digits, after a minus sign if there is one. */
  predicate IsNumeral(s: string)
  {
    |s| >= 1 && if s[0] == '-' then AllDigits(s[1..]) else AllDigits(s)
  }

  /** Reads back what `Decimal` writes. */
  function ParseDecimal(s: string): int
    requires IsNumeral(s)
  {
    if s[0] == '-' then -(DigitsValue(s[1..]) as int) else DigitsValue(s)
  }

  lemma {:induction false} DigitsRoundTrip(n: nat)
    ensures DigitsValue(Digits(n)) == n
    decreases n
  {
    if n >= 10 {
      DigitsRoundTrip(n / 10);
      var s := Digits(n);
      assert s[..|s| - 1] == Digits(n / 10);
    }
  }

  /** The decimal text of a key is a numeral naming that key. */
  lemma DecimalRoundTrip(n: int)
    ensures IsNumeral(Decimal(n)) && ParseDecimal(Decimal(n)) == n
  {
    if n < 0 {
      var d := Digits(-n);
      assert Decimal(n) == "-" + d;
      assert ("-" + d)[1..] == d;
      DigitsRoundTrip(-n);
    } else {
      DigitsRoundTrip(n);
    }
  }

  /** The text of one line as the stream receives it, `std::endl` included. */
  function LineText(ln: Line): (s: string)
    ensures ln.indent + ln.branch <= s && |s| >= 1 && s[|s| - 1] == '\n'
  {
    ln.indent + ln.branch + ColorString(ln.color) + Decimal(ln.key) + "\n"
  }

  /** The whole stream, line after line. */
  function Text(lines: seq<Line>): (s: string)
    ensures s == "" <==> lines == []
    ensures s != "" ==> s[|s| - 1] == '\n'
  {
    if lines == [] then "" else LineText(lines[0]) + Text(lines[1..])
  }
}
