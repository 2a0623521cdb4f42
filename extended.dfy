/** The numbers the pipeline compares: a Float32 energy is modelled as an
    integer, and the two infinities the source uses as sentinels
    (Number.NEGATIVE_INFINITY marks a seam cell, Number.POSITIVE_INFINITY
    stands for a side that is out of the row) are constructors of their own. */
module Extended {

  datatype Ext = NegInf | Fin(v: int) | PosInf

  /** What a cell of the energy buffer can hold: an energy or a seam mark, never +inf. */
  type Cell = e: Ext | !e.PosInf? witness NegInf

  function Rank(a: Ext): int {
    match a
    case NegInf => 0
    case Fin(_) => 1
    case PosInf => 2
  }

  /** The order of `<` on extended numbers. */
  predicate Less(a: Ext, b: Ext) {
    if a.Fin? && b.Fin? then a.v < b.v else Rank(a) < Rank(b)
  }

  predicate LessEq(a: Ext, b: Ext) {
    a == b || Less(a, b)
  }

  /** Math.min(...s): the least element, +inf for no elements. */
  function MinOf(s: seq<Ext>): (m: Ext)
    ensures forall j :: 0 <= j < |s| ==> LessEq(m, s[j])
    ensures |s| == 0 ==> m == PosInf
    ensures |s| > 0 ==> m in s
  {
    if |s| == 0 then PosInf
    else
      var rest := MinOf(s[1..]);
      assert forall j :: 1 <= j < |s| ==> s[j] == s[1..][j - 1];
      if |s| == 1 || LessEq(s[0], rest) then s[0] else rest
  }

  /** Array.prototype.indexOf with strict equality: the first position holding x, or -1. */
  function IndexOf(s: seq<Ext>, x: Ext): (r: int)
    ensures -1 <= r < |s|
    ensures r >= 0 ==> s[r] == x && forall j :: 0 <= j < r ==> s[j] != x
    ensures r == -1 <==> x !in s
  {
    if |s| == 0 then -1
    else if s[0] == x then 0
    else
      var r := IndexOf(s[1..], x);
      assert forall j :: 1 <= j < |s| ==> s[j] == s[1..][j - 1];
      if r < 0 then -1 else r + 1
  }

  /** The position of the first minimum of s, found by a scan that keeps the
      earlier position on a tie; -1 for no elements. FirstMinIsIndexOfMin shows
      it is `s.indexOf(Math.min(...s))`. */
  function FirstMin(s: seq<Ext>): (r: int)
    ensures |s| == 0 ==> r == -1
    ensures |s| > 0 ==> 0 <= r < |s|
    decreases |s|
  {
    if |s| == 0 then -1
    else
      var r := FirstMin(s[..|s| - 1]);
      if r < 0 || Less(s[|s| - 1], s[r]) then |s| - 1 else r
  }

  lemma LessEqTrans(a: Ext, b: Ext, c: Ext)
    requires LessEq(a, b) && LessEq(b, c)
    ensures LessEq(a, c)
    ensures Less(a, b) || Less(b, c) ==> Less(a, c)
  {
  }

  /** The element at FirstMin is no greater than any element, and strictly less
      than every element before it. */
  lemma {:induction false} FirstMinIsFirstLeast(s: seq<Ext>)
    requires |s| > 0
    ensures forall j :: 0 <= j < |s| ==> LessEq(s[FirstMin(s)], s[j])
    ensures forall j :: 0 <= j < FirstMin(s) ==> Less(s[FirstMin(s)], s[j])
    decreases |s|
  {
    var n := |s| - 1;
    var p := s[..n];
    if n > 0 {
      FirstMinIsFirstLeast(p);
      var q := FirstMin(p);
      assert forall j :: 0 <= j < n ==> p[j] == s[j];
      if Less(s[n], s[q]) {
        forall j | 0 <= j < |s|
          ensures LessEq(s[n], s[j]) && (j < n ==> Less(s[n], s[j]))
        {
          if j < n {
            LessEqTrans(s[n], s[q], s[j]);
          }
        }
      }
    }
  }

  /** The scan finds the first position of the least element: the index
      `indexOf` gives for the value `Math.min` gives. */
  lemma FirstMinIsIndexOfMin(s: seq<Ext>)
    ensures FirstMin(s) == IndexOf(s, MinOf(s))
  {
    if |s| > 0 {
      FirstMinIsFirstLeast(s);
      var r, m := FirstMin(s), MinOf(s);
      var k :| 0 <= k < |s| && s[k] == m;
      assert s[r] == m by {
        assert LessEq(s[r], s[k]) && LessEq(m, s[r]);
      }
    }
  }
}
