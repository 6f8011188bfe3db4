/** Day 1: the input lists the calories each elf carries, one number per
    line, with a blank line between elves. `run` sums every elf's group and
    answers with the total of the three largest sums, found by pushing the
    negated sums into the min-heap and popping three times. */
module CalorieCounting {
  import opened Results
  import opened GoStrings
  import opened MinHeap

  datatype Error =
    | NotANumber          // a line of some group is not a decimal integer
    | TooFewGroups(pop: nat)  // the pop-th of the three pops found the heap empty

  /** The sum of one group's lines, or None when a line is not a number. */
  function LinesSum(lines: seq<string>): Option<int>
    decreases |lines|
  {
    if |lines| == 0 then Some(0)
    else
      match LinesSum(lines[..|lines| - 1])
      case None => None
      case Some(s) =>
        match Atoi(lines[|lines| - 1])
        case None => None
        case Some(v) => Some(s + v)
  }

  /** A group has a sum exactly when every one of its lines is a number. */
  lemma {:induction false} LinesSumDefined(lines: seq<string>)
    ensures LinesSum(lines).Some? <==> forall i :: 0 <= i < |lines| ==> IsDecimal(lines[i])
    decreases |lines|
  {
    if |lines| > 0 {
      var init := lines[..|lines| - 1];
      LinesSumDefined(init);
      assert forall i :: 0 <= i < |init| ==> init[i] == lines[i];
    }
  }

  /** The sums of the groups, in order, or None when some line of some group
      is not a number. */
  function GroupSums(groups: seq<string>): Option<seq<int>>
    decreases |groups|
  {
    if |groups| == 0 then Some([])
    else
      match GroupSums(groups[..|groups| - 1])
      case None => None
      case Some(sums) =>
        match LinesSum(Split(groups[|groups| - 1], "\n"))
        case None => None
        case Some(c) => Some(sums + [c])
  }

  /** The groups have sums exactly when every group has one, and then the
      g-th sum is the sum of the g-th group. */
  lemma {:induction false} GroupSumsSpec(groups: seq<string>)
    ensures GroupSums(groups).Some? <==> forall g :: 0 <= g < |groups| ==> LinesSum(Split(groups[g], "\n")).Some?
    ensures GroupSums(groups).Some? ==> |GroupSums(groups).value| == |groups|
    ensures GroupSums(groups).Some? ==> forall g :: 0 <= g < |groups| ==>
      GroupSums(groups).value[g] == LinesSum(Split(groups[g], "\n")).value
    decreases |groups|
  {
    if |groups| > 0 {
      var init := groups[..|groups| - 1];
      GroupSumsSpec(init);
      assert forall g :: 0 <= g < |init| ==> init[g] == groups[g];
    }
  }

  /** One more group whose sum exists appends that sum. */
  lemma GroupSumsSnoc(groups: seq<string>, g: nat, sums: seq<int>, c: int)
    requires g < |groups| && GroupSums(groups[..g]) == Some(sums)
    requires LinesSum(Split(groups[g], "\n")) == Some(c)
    ensures GroupSums(groups[..g + 1]) == Some(sums + [c])
  {
    assert groups[..g + 1][..g] == groups[..g];
  }

  /** A group without a sum leaves all the groups without sums. */
  lemma GroupSumsStop(groups: seq<string>, g: nat)
    requires g < |groups| && LinesSum(Split(groups[g], "\n")).None?
    ensures GroupSums(groups).None?
  {
    GroupSumsSpec(groups);
  }

  /** The groups of the input are separated by a blank line, their lines by a newline. */
  function Sums(input: string): Option<seq<int>> {
    GroupSums(Split(input, "\n\n"))
  }

  /** Each sum negated, as pushed into the heap. */
  function Negated(s: seq<int>): (r: seq<int>)
    ensures |r| == |s|
  {
    seq(|s|, k requires 0 <= k < |s| => -s[k])
  }

  /** Negating a sequence that grew by one value appends that value's negation. */
  lemma NegatedSnoc(s: seq<int>, x: int)
    ensures Negated(s + [x]) == Negated(s) + [-x]
    ensures multiset(Negated(s + [x])) == multiset(Negated(s)) + multiset{-x}
  {
    assert Negated(s + [x]) == Negated(s) + [-x];
  }

  /** Pushing the negation of one more sum keeps the heap's contents equal
      to the negated sums. */
  lemma NegatedPush(before: seq<int>, after: seq<int>, sums: seq<int>, c: int)
    requires multiset(before) == multiset(Negated(sums))
    requires multiset(after) == multiset(before) + multiset{-c}
    ensures multiset(after) == multiset(Negated(sums + [c]))
  {
    NegatedSnoc(sums, c);
  }

  /** A value occurs in the negated sums as often as its negation occurs in the sums. */
  lemma {:induction false} NegatedCount(s: seq<int>, v: int)
    ensures multiset(Negated(s))[v] == multiset(s)[-v]
    decreases |s|
  {
    if |s| > 0 {
      var init, last := s[..|s| - 1], s[|s| - 1];
      NegatedCount(init, v);
      assert s == init + [last];
      NegatedSnoc(init, last);
    }
  }

  /** When the negated sums are a permutation of `t`, the sums are a
      permutation of the negation of `t`. */
  lemma NegatedPermutation(s: seq<int>, t: seq<int>)
    requires multiset(Negated(s)) == multiset(t)
    ensures multiset(s) == multiset(Negated(t))
  {
    forall v
      ensures multiset(s)[v] == multiset(Negated(t))[v]
    {
      NegatedCount(s, -v);
      NegatedCount(t, v);
    }
  }

  /** `a`, `b` and `c` are three of the values, counted with multiplicity,
      and none of the values left over is greater than any of them. */
  ghost predicate IsTopThree(ms: multiset<int>, a: int, b: int, c: int) {
    exists rest: multiset<int> ::
      && ms == rest + multiset{a, b, c}
      && forall v :: v in rest ==> v <= a && v <= b && v <= c
  }

  /** A bound on every element is a bound on every member. */
  lemma PopBound(t: seq<int>, x: int)
    requires forall k :: 0 <= k < |t| ==> x <= t[k]
    ensures forall v :: v in multiset(t) ==> x <= v
  {
    forall v | v in multiset(t)
      ensures x <= v
    {
      var k :| 0 <= k < |t| && t[k] == v;
    }
  }

  /** One pop took `root` off the heap `before` and left `after`: the root
      was in the heap and is no greater than anything left in it. */
  ghost predicate PopStep(before: seq<int>, after: seq<int>, root: int) {
    && multiset(before) == multiset(after) + multiset{root}
    && forall v :: v in multiset(after) ==> root <= v
  }

  /** Three pops in a row: the first heap holds the three popped roots and
      what the last heap holds, and no popped root is greater than anything
      the last heap holds. */
  lemma ThreePops(m0: multiset<int>, m1: multiset<int>, m2: multiset<int>, m3: multiset<int>, x: int, y: int, z: int)
    requires m0 == m1 + multiset{x} && m1 == m2 + multiset{y} && m2 == m3 + multiset{z}
    requires forall v :: v in m1 ==> x <= v
    requires forall v :: v in m2 ==> y <= v
    requires forall v :: v in m3 ==> z <= v
    ensures m0 == m3 + multiset{z, y, x}
    ensures forall v :: v in m3 ==> x <= v && y <= v && z <= v
  {
    assert multiset{z, y, x} == multiset{z} + multiset{y} + multiset{x};
    forall v | v in m3
      ensures x <= v && y <= v
    {
      assert v in m2;
      assert v in m1;
    }
  }

  /** Negation turns a lower bound of a sequence into an upper bound of its
      negation. */
  lemma NegatedBound(t: seq<int>, x: int)
    requires forall v :: v in multiset(t) ==> x <= v
    ensures forall v :: v in multiset(Negated(t)) ==> v <= -x
  {
    var n := Negated(t);
    forall v | v in multiset(n)
      ensures v <= -x
    {
      var k :| 0 <= k < |n| && n[k] == v;
      assert t[k] in multiset(t);
    }
  }

  /** Taking three values out of the negated sums takes their negations out
      of the sums. */
  lemma NegatedRemoval(sums: seq<int>, t: seq<int>, x: int, y: int, z: int, a: int, b: int, c: int)
    requires multiset(Negated(sums)) == multiset(t) + multiset{z, y, x}
    requires a == -x && b == -y && c == -z
    ensures multiset(sums) == multiset(Negated(t)) + multiset{a, b, c}
  {
    var u := t + [z, y, x];
    assert multiset(u) == multiset(t) + multiset{z, y, x} by {
      assert multiset([z, y, x]) == multiset{z, y, x};
    }
    NegatedPermutation(sums, u);
    assert Negated(u) == Negated(t) + [c, b, a];
    assert multiset([c, b, a]) == multiset{a, b, c};
  }

  /** Popping three times from a heap of the negated sums yields the
      negations `a`, `b`, `c` of the three largest sums. */
  lemma PoppedTopThree(sums: seq<int>, v0: seq<int>, v1: seq<int>, v2: seq<int>, v3: seq<int>,
                       x: int, y: int, z: int, a: int, b: int, c: int)
    requires multiset(v0) == multiset(Negated(sums))
    requires PopStep(v0, v1, x) && PopStep(v1, v2, y) && PopStep(v2, v3, z)
    requires a == -x && b == -y && c == -z
    ensures IsTopThree(multiset(sums), a, b, c)
  {
    ThreePops(multiset(v0), multiset(v1), multiset(v2), multiset(v3), x, y, z);
    NegatedRemoval(sums, v3, x, y, z, a, b, c);
    NegatedBound(v3, x);
    NegatedBound(v3, y);
    NegatedBound(v3, z);
    var rest := multiset(Negated(v3));
    assert multiset(sums) == rest + multiset{a, b, c};
    assert forall v :: v in rest ==> v <= a && v <= b && v <= c;
  }

  /** The inner loop of run: the calories of one group, or None at the
      first line that is not a number. */
  method GroupCalories(group: string) returns (r: Option<int>)
    ensures r == LinesSum(Split(group, "\n"))
  {
    var lines := Split(group, "\n");
    var calories := 0;
    for l := 0 to |lines|
      invariant LinesSum(lines[..l]) == Some(calories)
    {
      var c := Atoi(lines[l]);
      if c.None? {
        assert LinesSum(lines).None? by {
          LinesSumDefined(lines);
        }
        return None;
      }
      assert lines[..l + 1][..l] == lines[..l];
      calories := calories + c.value;
    }
    assert lines[..|lines|] == lines;
    return Some(calories);
  }

  /** The loop of run: sum every group and push its negated sum into the
      heap, stopping at the first line that is not a number. */
  method PushGroups(h: Heap, groups: seq<string>) returns (ok: bool, ghost sums: seq<int>)
    requires h.values == []
    modifies h
    ensures ok <==> GroupSums(groups).Some?
    ensures ok ==> GroupSums(groups) == Some(sums)
    ensures ok ==> IsHeap(h.values) && multiset(h.values) == multiset(Negated(sums))
  {
    sums := [];
    for g := 0 to |groups|
      invariant GroupSums(groups[..g]) == Some(sums)
      invariant IsHeap(h.values) && multiset(h.values) == multiset(Negated(sums))
    {
      var calories := GroupCalories(groups[g]);
      if calories.None? {
        GroupSumsStop(groups, g);
        return false, sums;
      }
      GroupSumsSnoc(groups, g, sums, calories.value);
      ghost var before := h.values;
      h.Push(-calories.value);
      NegatedPush(before, h.values, sums, calories.value);
      sums := sums + [calories.value];
    }
    assert groups[..|groups|] == groups;
    return true, sums;
  }

  /** The end of run: pop the three smallest negated sums, that is the
      three largest sums, and add them up. */
  method PopTopThree(h: Heap, ghost sums: seq<int>) returns (r: Result<int, Error>)
    requires IsHeap(h.values) && multiset(h.values) == multiset(Negated(sums))
    modifies h
    ensures |sums| < 3 ==> r == Err(TooFewGroups(|sums| + 1))
    ensures |sums| >= 3 ==>
      r.Ok? && exists a, b, c :: IsTopThree(multiset(sums), a, b, c) && r.value == a + b + c
  {
    assert |h.values| == |sums| by {
      assert |multiset(h.values)| == |multiset(Negated(sums))|;
    }
    ghost var v0 := h.values;
    var x := h.Pop();
    if x.None? {
      return Err(TooFewGroups(1));
    }
    assert PopStep(v0, h.values, x.value) by { PopBound(h.values, x.value); }
    ghost var v1 := h.values;
    var y := h.Pop();
    if y.None? {
      return Err(TooFewGroups(2));
    }
    assert PopStep(v1, h.values, y.value) by { PopBound(h.values, y.value); }
    ghost var v2 := h.values;
    var z := h.Pop();
    if z.None? {
      return Err(TooFewGroups(3));
    }
    assert PopStep(v2, h.values, z.value) by { PopBound(h.values, z.value); }
    var a, b, c := -x.value, -y.value, -z.value;
    PoppedTopThree(sums, v0, v1, v2, h.values, x.value, y.value, z.value, a, b, c);
    r := Ok(a + b + c);
  }

  /** run: the total of the three largest group sums. */
  method Run(input: string) returns (r: Result<int, Error>)
    ensures Sums(input).None? ==> r == Err(NotANumber)
    ensures Sums(input).Some? && |Sums(input).value| < 3 ==>
      r == Err(TooFewGroups(|Sums(input).value| + 1))
    ensures Sums(input).Some? && |Sums(input).value| >= 3 ==>
      r.Ok? && exists a, b, c :: IsTopThree(multiset(Sums(input).value), a, b, c) && r.value == a + b + c
  {
    var h := new Heap();
    var ok, sums := PushGroups(h, Split(input, "\n\n"));
    if !ok {
      return Err(NotANumber);
    }
    r := PopTopThree(h, sums);
  }
}
