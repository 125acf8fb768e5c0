/**
 * The scoreboard's ordering of snakes (`orderSnakes`) and its highlight
 * toggle (`toggleHighlight`), from src/components/scoreboard.jsx.
 *
 * `orderSnakes` filters, sorts with a JavaScript comparator, reverses and
 * concatenates. Sorting is modelled by an insertion sort driven by the same
 * comparator; the lemmas below fix what any correct sort produces
 * (a permutation ordered by the comparator) and leave the order among equal
 * keys open.
 */
module Scoreboard {
  import opened Wrappers
  import opened Normalizer

  // ---------------------------------------------------------------------
  // Names: lower-casing and string order
  // ---------------------------------------------------------------------

  /** ASCII lower-casing of one character. */
  function LowerChar(c: char): char {
    if 'A' <= c <= 'Z' then (c as int + 32) as char else c
  }

  function Lower(s: string): string {
    seq(|s|, i requires 0 <= i < |s| => LowerChar(s[i]))
  }

  /** JavaScript's `a < b` on strings: lexicographic by character, a proper prefix first. */
  predicate Less(a: string, b: string) {
    if |b| == 0 then false
    else if |a| == 0 then true
    else if a[0] != b[0] then a[0] < b[0]
    else Less(a[1..], b[1..])
  }

  lemma {:induction false} LessIrreflexive(a: string)
    ensures !Less(a, a)
  {
    if |a| > 0 {
      LessIrreflexive(a[1..]);
    }
  }

  lemma {:induction false} LessTransitive(a: string, b: string, c: string)
    requires Less(a, b) && Less(b, c)
    ensures Less(a, c)
  {
    if |a| > 0 && a[0] == b[0] && b[0] == c[0] {
      LessTransitive(a[1..], b[1..], c[1..]);
    }
  }

  /** Any two different strings are ordered one way or the other. */
  lemma {:induction false} LessTotal(a: string, b: string)
    requires a != b
    ensures Less(a, b) || Less(b, a)
  {
    if |a| > 0 && |b| > 0 && a[0] == b[0] {
      assert a == [a[0]] + a[1..] && b == [b[0]] + b[1..];
      LessTotal(a[1..], b[1..]);
    }
  }

  lemma LessAsymmetric(a: string, b: string)
    requires Less(a, b)
    ensures !Less(b, a)
  {
    if Less(b, a) {
      LessTransitive(a, b, a);
      LessIrreflexive(a);
    }
  }

  // ---------------------------------------------------------------------
  // Comparators, as the component passes them to `Array.prototype.sort`
  // ---------------------------------------------------------------------

  /** The alive comparator: -1, 1 or 0 by lower-cased name. */
  function NameCompare(a: Snake, b: Snake): int {
    var aLower, bLower := Lower(a.name), Lower(b.name);
    if Less(aLower, bLower) then -1
    else if Less(bLower, aLower) then 1
    else 0
  }

  /**
   * `death.turn` of a dead snake. A dead snake always carries its death
   * record when it comes from the normaliser (Normalizer.FormatSnakeDeath);
   * the 0 for a missing record is never used on such input.
   */
  function DeathTurn(s: Snake): int {
    if s.death.Some? then s.death.value.turn else 0
  }

  /** The dead comparator: ascending `death.turn`. */
  function DeathTurnCompare(a: Snake, b: Snake): int {
    DeathTurn(a) - DeathTurn(b)
  }

  /** `s` is in the order a sort with comparator `cmp` leaves it in. */
  ghost predicate SortedBy(s: seq<Snake>, cmp: (Snake, Snake) -> int) {
    forall i, j :: 0 <= i < j < |s| ==> cmp(s[i], s[j]) <= 0
  }

  /** What `sort` needs of a comparator: a total preorder. */
  ghost predicate TotalPreorder(cmp: (Snake, Snake) -> int) {
    && (forall a, b :: cmp(a, b) <= 0 || cmp(b, a) <= 0)
    && (forall a, b, c :: cmp(a, b) <= 0 && cmp(b, c) <= 0 ==> cmp(a, c) <= 0)
  }

  /** `a` may stay before `b` exactly when `b`'s lower-cased name is not smaller. */
  lemma NameCompareAtMostZero(a: Snake, b: Snake)
    ensures NameCompare(a, b) <= 0 <==> !Less(Lower(b.name), Lower(a.name))
  {
    if Less(Lower(a.name), Lower(b.name)) {
      LessAsymmetric(Lower(a.name), Lower(b.name));
    }
  }

  lemma NameCompareIsTotalPreorder()
    ensures TotalPreorder(NameCompare)
  {
    forall a: Snake, b: Snake
      ensures NameCompare(a, b) <= 0 || NameCompare(b, a) <= 0
    {
      var al, bl := Lower(a.name), Lower(b.name);
      if Less(al, bl) {
        LessAsymmetric(al, bl);
      }
    }
    forall a: Snake, b: Snake, c: Snake | NameCompare(a, b) <= 0 && NameCompare(b, c) <= 0
      ensures NameCompare(a, c) <= 0
    {
      var al, bl, cl := Lower(a.name), Lower(b.name), Lower(c.name);
      NameCompareAtMostZero(a, b);
      NameCompareAtMostZero(b, c);
      NameCompareAtMostZero(a, c);
      if Less(cl, al) {
        if bl == al {
        } else if bl == cl {
        } else {
          LessTotal(al, bl);
          LessTransitive(cl, al, bl);
        }
        assert false;
      }
    }
  }

  lemma DeathTurnCompareIsTotalPreorder()
    ensures TotalPreorder(DeathTurnCompare)
  {
  }

  // ---------------------------------------------------------------------
  // Sorting
  // ---------------------------------------------------------------------

  function Insert(x: Snake, s: seq<Snake>, cmp: (Snake, Snake) -> int): seq<Snake> {
    if s == [] then [x]
    else if cmp(x, s[0]) <= 0 then [x] + s
    else [s[0]] + Insert(x, s[1..], cmp)
  }

  /** `snakes.sort(cmp)`, as an insertion sort. */
  function Sort(s: seq<Snake>, cmp: (Snake, Snake) -> int): seq<Snake> {
    if s == [] then [] else Insert(s[0], Sort(s[1..], cmp), cmp)
  }

  lemma {:induction false} InsertPermutes(x: Snake, s: seq<Snake>, cmp: (Snake, Snake) -> int)
    ensures multiset(Insert(x, s, cmp)) == multiset(s) + multiset{x}
  {
    if s != [] && cmp(x, s[0]) > 0 {
      InsertPermutes(x, s[1..], cmp);
      assert s == [s[0]] + s[1..];
    }
  }

  /** Sorting returns a permutation of its input. */
  lemma {:induction false} SortPermutes(s: seq<Snake>, cmp: (Snake, Snake) -> int)
    ensures multiset(Sort(s, cmp)) == multiset(s)
    ensures |Sort(s, cmp)| == |s|
  {
    if s != [] {
      SortPermutes(s[1..], cmp);
      InsertPermutes(s[0], Sort(s[1..], cmp), cmp);
      assert s == [s[0]] + s[1..];
    }
    assert |multiset(Sort(s, cmp))| == |Sort(s, cmp)|;
  }

  lemma Transitive(cmp: (Snake, Snake) -> int, a: Snake, b: Snake, c: Snake)
    requires TotalPreorder(cmp)
    requires cmp(a, b) <= 0 && cmp(b, c) <= 0
    ensures cmp(a, c) <= 0
  {
  }

  /** A lower bound of `x` and of every element of `s` bounds every element of the insertion. */
  lemma {:induction false} InsertBounded(x: Snake, s: seq<Snake>, cmp: (Snake, Snake) -> int, b: Snake)
    requires cmp(b, x) <= 0
    requires forall k :: 0 <= k < |s| ==> cmp(b, s[k]) <= 0
    ensures |Insert(x, s, cmp)| == |s| + 1
    ensures forall k :: 0 <= k < |s| + 1 ==> cmp(b, Insert(x, s, cmp)[k]) <= 0
  {
    if s != [] && cmp(x, s[0]) > 0 {
      InsertBounded(x, s[1..], cmp, b);
    }
  }

  lemma PrependSorted(x: Snake, s: seq<Snake>, cmp: (Snake, Snake) -> int)
    requires TotalPreorder(cmp)
    requires SortedBy(s, cmp)
    requires s != [] && cmp(x, s[0]) <= 0
    ensures SortedBy([x] + s, cmp)
  {
    var r := [x] + s;
    forall i, j | 0 <= i < j < |r| ensures cmp(r[i], r[j]) <= 0 {
      if i == 0 {
        if j > 1 {
          Transitive(cmp, x, s[0], s[j - 1]);
        }
      } else {
        assert r[i] == s[i - 1] && r[j] == s[j - 1];
      }
    }
  }

  lemma {:induction false} InsertSorted(x: Snake, s: seq<Snake>, cmp: (Snake, Snake) -> int)
    requires TotalPreorder(cmp)
    requires SortedBy(s, cmp)
    ensures SortedBy(Insert(x, s, cmp), cmp)
  {
    if s == [] {
    } else if cmp(x, s[0]) <= 0 {
      PrependSorted(x, s, cmp);
    } else {
      var rest := s[1..];
      InsertSorted(x, rest, cmp);
      InsertBounded(x, rest, cmp, s[0]);
      var t := Insert(x, rest, cmp);
      var r := [s[0]] + t;
      forall i, j | 0 <= i < j < |r| ensures cmp(r[i], r[j]) <= 0 {
        if i > 0 {
          assert r[i] == t[i - 1] && r[j] == t[j - 1];
        } else {
          assert r[j] == t[j - 1];
        }
      }
    }
  }

  /** Sorting with a total preorder orders the result by it. */
  lemma {:induction false} SortSorted(s: seq<Snake>, cmp: (Snake, Snake) -> int)
    requires TotalPreorder(cmp)
    ensures SortedBy(Sort(s, cmp), cmp)
  {
    if s != [] {
      SortSorted(s[1..], cmp);
      InsertSorted(s[0], Sort(s[1..], cmp), cmp);
    }
  }

  // ---------------------------------------------------------------------
  // orderSnakes
  // ---------------------------------------------------------------------

  /** `snakes.filter(s => s.isDead == dead)`. */
  function WithStatus(s: seq<Snake>, dead: bool): seq<Snake> {
    if s == [] then []
    else (if s[0].isDead == dead then [s[0]] else []) + WithStatus(s[1..], dead)
  }

  function Reverse(s: seq<Snake>): seq<Snake> {
    if s == [] then [] else Reverse(s[1..]) + [s[0]]
  }

  /** Alive snakes by name, then dead snakes by the turn they died, latest first. */
  function OrderSnakes(snakes: seq<Snake>): seq<Snake> {
    var alive := Sort(WithStatus(snakes, false), NameCompare);
    var dead := Reverse(Sort(WithStatus(snakes, true), DeathTurnCompare));
    alive + dead
  }

  lemma {:induction false} WithStatusSplits(s: seq<Snake>)
    ensures multiset(WithStatus(s, false)) + multiset(WithStatus(s, true)) == multiset(s)
  {
    if s != [] {
      WithStatusSplits(s[1..]);
      assert s == [s[0]] + s[1..];
    }
  }

  lemma {:induction false} WithStatusKeeps(s: seq<Snake>, dead: bool)
    ensures forall x :: x in multiset(WithStatus(s, dead)) ==> x.isDead == dead
  {
    if s != [] {
      WithStatusKeeps(s[1..], dead);
    }
  }

  lemma {:induction false} ReverseAt(s: seq<Snake>)
    ensures |Reverse(s)| == |s|
    ensures forall k :: 0 <= k < |s| ==> Reverse(s)[k] == s[|s| - 1 - k]
  {
    if s != [] {
      ReverseAt(s[1..]);
    }
  }

  lemma {:induction false} ReversePermutes(s: seq<Snake>)
    ensures multiset(Reverse(s)) == multiset(s)
  {
    if s != [] {
      ReversePermutes(s[1..]);
      assert s == [s[0]] + s[1..];
    }
  }

  /** `orderSnakes` returns a permutation of its input. */
  lemma OrderSnakesPermutes(snakes: seq<Snake>)
    ensures |OrderSnakes(snakes)| == |snakes|
    ensures multiset(OrderSnakes(snakes)) == multiset(snakes)
  {
    var alive, dead := WithStatus(snakes, false), WithStatus(snakes, true);
    SortPermutes(alive, NameCompare);
    SortPermutes(dead, DeathTurnCompare);
    ReversePermutes(Sort(dead, DeathTurnCompare));
    WithStatusSplits(snakes);
    assert |multiset(OrderSnakes(snakes))| == |OrderSnakes(snakes)|;
    assert |multiset(snakes)| == |snakes|;
  }

  /**
   * The result is the alive snakes followed by the dead ones: the first
   * `|WithStatus(snakes, false)|` entries are alive, the rest dead.
   */
  lemma OrderSnakesAliveFirst(snakes: seq<Snake>)
    ensures var r, n := OrderSnakes(snakes), |WithStatus(snakes, false)|;
      n <= |r| && forall i :: 0 <= i < |r| ==> (r[i].isDead <==> i >= n)
  {
    var alive, dead := WithStatus(snakes, false), WithStatus(snakes, true);
    var sa, sd := Sort(alive, NameCompare), Sort(dead, DeathTurnCompare);
    SortPermutes(alive, NameCompare);
    SortPermutes(dead, DeathTurnCompare);
    ReversePermutes(sd);
    ReverseAt(sd);
    WithStatusKeeps(snakes, false);
    WithStatusKeeps(snakes, true);
    var r := OrderSnakes(snakes);
    forall i | 0 <= i < |r| ensures r[i].isDead <==> i >= |alive| {
      if i < |alive| {
        assert r[i] == sa[i] && sa[i] in multiset(sa);
      } else {
        assert r[i] == Reverse(sd)[i - |alive|] && Reverse(sd)[i - |alive|] in multiset(Reverse(sd));
      }
    }
  }

  /** Alive snakes come in non-decreasing order of lower-cased name. */
  lemma OrderSnakesAliveByName(snakes: seq<Snake>)
    ensures var r := OrderSnakes(snakes);
      forall i, j :: 0 <= i < j < |r| && !r[j].isDead ==> !Less(Lower(r[j].name), Lower(r[i].name))
  {
    var alive := WithStatus(snakes, false);
    var sa := Sort(alive, NameCompare);
    NameCompareIsTotalPreorder();
    SortSorted(alive, NameCompare);
    OrderSnakesAliveFirst(snakes);
    SortPermutes(alive, NameCompare);
    var r := OrderSnakes(snakes);
    forall i, j | 0 <= i < j < |r| && !r[j].isDead
      ensures !Less(Lower(r[j].name), Lower(r[i].name))
    {
      assert r[i] == sa[i] && r[j] == sa[j];
      assert NameCompare(sa[i], sa[j]) <= 0;
      NameCompareAtMostZero(sa[i], sa[j]);
    }
  }

  /** Reversing an ascending order by death turn gives a descending one. */
  lemma ReverseDescending(s: seq<Snake>)
    requires SortedBy(s, DeathTurnCompare)
    ensures |Reverse(s)| == |s|
    ensures forall i, j :: 0 <= i < j < |s| ==> DeathTurn(Reverse(s)[i]) >= DeathTurn(Reverse(s)[j])
  {
    ReverseAt(s);
    forall i, j | 0 <= i < j < |s| ensures DeathTurn(Reverse(s)[i]) >= DeathTurn(Reverse(s)[j]) {
      assert DeathTurnCompare(s[|s| - 1 - j], s[|s| - 1 - i]) <= 0;
    }
  }

  /** Dead snakes come in non-increasing order of the turn they died. */
  lemma OrderSnakesDeadByTurn(snakes: seq<Snake>)
    ensures var r := OrderSnakes(snakes);
      forall i, j :: 0 <= i < j < |r| && r[i].isDead ==> DeathTurn(r[i]) >= DeathTurn(r[j])
  {
    var alive, dead := WithStatus(snakes, false), WithStatus(snakes, true);
    var sa, sd := Sort(alive, NameCompare), Sort(dead, DeathTurnCompare);
    DeathTurnCompareIsTotalPreorder();
    SortSorted(dead, DeathTurnCompare);
    ReverseDescending(sd);
    OrderSnakesAliveFirst(snakes);
    var rev := Reverse(sd);
    var r := OrderSnakes(snakes);
    assert r == sa + rev;
    SortPermutes(alive, NameCompare);
    var n := |sa|;
    forall i, j | 0 <= i < j < |r| && r[i].isDead
      ensures DeathTurn(r[i]) >= DeathTurn(r[j])
    {
      assert r[i] == rev[i - n] && r[j] == rev[j - n];
    }
  }

  // ---------------------------------------------------------------------
  // Highlight toggle
  // ---------------------------------------------------------------------

  /** `getSnakeToHighlight`: clicking the highlighted snake clears the highlight, any other snake takes it. */
  function NextHighlight(highlighted: Option<string>, id: string): (r: Option<string>)
    ensures r.None? <==> highlighted == Some(id)
    ensures r.Some? ==> r.value == id
  {
    if highlighted != Some(id) then Some(id) else None
  }

  /** Clicking the same snake twice, starting from no highlight, ends with no highlight. */
  lemma ToggleTwiceClears(id: string)
    ensures NextHighlight(NextHighlight(None, id), id) == None
  {
  }

  /** The component's `highlightedSnake` state. */
  class Scoreboard {
    var highlighted: Option<string>

    constructor ()
      ensures highlighted == None
    {
      highlighted := None;
    }

    /**
     * `toggleHighlight`: returns the id passed to the store's
     * `highlightSnake` and moves the component's own state to it.
     */
    method ToggleHighlight(snakeId: string) returns (dispatched: Option<string>)
      modifies this
      ensures dispatched == NextHighlight(old(highlighted), snakeId)
      ensures highlighted == dispatched
    {
      dispatched := NextHighlight(highlighted, snakeId);
      highlighted := NextHighlight(highlighted, snakeId);
    }
  }
}
