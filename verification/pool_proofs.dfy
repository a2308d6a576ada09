/**
  Properties of the recycling pool: it never gains or loses an element, it keeps
  its alive elements in front, `get` and `getTwo` fill exactly the free slots they
  promise, and `animate` leaves dead elements alone.
*/
module RecyclingPoolProofs {
  import opened RecyclingPool

  // ---------------------------------------------------------------------------
  // Counting and identities

  lemma {:induction false} CountAliveAppend<T>(a: seq<Elem<T>>, c: seq<Elem<T>>)
    ensures CountAlive(a + c) == CountAlive(a) + CountAlive(c)
  {
    if a == [] {
      assert a + c == c;
    } else {
      assert (a + c)[1..] == a[1..] + c;
      CountAliveAppend(a[1..], c);
    }
  }

  /** Under the alive-prefix layout the alive elements are exactly the first
      `CountAlive(s)` ones. */
  lemma {:induction false} PrefixCount<T>(s: seq<Elem<T>>)
    requires AlivePrefix(s)
    ensures CountAlive(s) <= |s|
    ensures forall k :: 0 <= k < |s| ==> (s[k].alive <==> k < CountAlive(s))
  {
    if s != [] {
      var rest := s[1..];
      assert AlivePrefix(rest) by {
        forall j, k | 0 <= j < k < |rest| && rest[k].alive
          ensures rest[j].alive
        {
          assert s[k + 1].alive;
        }
      }
      PrefixCount(rest);
      if !s[0].alive {
        forall k | 0 <= k < |rest|
          ensures !rest[k].alive
        {
          assert rest[k] == s[k + 1];
        }
        if |rest| > 0 {
          assert !rest[0].alive;
        }
      }
      forall k | 1 <= k < |s|
        ensures s[k].alive <==> k < CountAlive(s)
      {
        assert s[k] == rest[k - 1];
      }
    }
  }

  lemma IdsUpdate<T>(s: seq<Elem<T>>, k: nat, e: Elem<T>)
    requires k < |s| && e.id == s[k].id
    ensures Ids(s[k := e]) == Ids(s)
  {
  }

  lemma RotatePermutes<T>(s: seq<Elem<T>>)
    requires |s| > 0
    ensures multiset(Ids(RotateRight(s))) == multiset(Ids(s))
  {
    var ids := Ids(s);
    assert Ids(RotateRight(s)) == [ids[|s| - 1]] + ids[..|s| - 1];
    assert ids == ids[..|s| - 1] + [ids[|s| - 1]];
  }

  lemma MoveToTailPermutes<T>(s: seq<Elem<T>>, i: nat)
    requires i < |s|
    ensures multiset(Ids(MoveToTail(s, i))) == multiset(Ids(s))
  {
    var ids := Ids(s);
    assert Ids(MoveToTail(s, i)) == ids[..i] + ids[i + 1..] + [ids[i]];
    assert ids == ids[..i] + [ids[i]] + ids[i + 1..];
  }

  /** Splicing out an alive element and appending it cleared removes one alive. */
  lemma MoveToTailCount<T>(s: seq<Elem<T>>, i: nat, c: Elem<T>)
    requires i < |s| && s[i].alive && !c.alive
    ensures CountAlive(MoveToTail(s[i := c], i)) + 1 == CountAlive(s)
  {
    var t := s[i := c];
    assert t[..i] == s[..i] && t[i + 1..] == s[i + 1..];
    CountAliveAppend(t[..i] + t[i + 1..], [c]);
    CountAliveAppend(t[..i], t[i + 1..]);
    assert s == s[..i] + ([s[i]] + s[i + 1..]);
    CountAliveAppend(s[..i], [s[i]] + s[i + 1..]);
    CountAliveAppend([s[i]], s[i + 1..]);
  }

  // ---------------------------------------------------------------------------
  // init

  /** `new Pool(maxSize)` with `init("wall")` gives a valid pool of `maxSize`
      distinct, dead elements. */
  lemma CreateValid<T>(maxSize: int, blank: T)
    requires maxSize >= 1
    ensures var p := Create(maxSize, "wall", blank);
            Valid(p) && CountAlive(p.slots) == 0
  {
    var p := Create(maxSize, "wall", blank);
    PrefixCount(p.slots);
    assert !p.slots[0].alive;
  }

  /** The pool the ship builds (`new Pool(30)`, `init("wall")`). */
  lemma ShipWallPool<T>(blank: T)
    ensures var p := Create(30, "wall", blank);
            Valid(p) && |p.slots| == 30 && CountAlive(p.slots) == 0
  {
    CreateValid(30, blank);
  }

  /** A pool built for any other kind is left empty, so the first `get` raises. */
  lemma CreateOtherKindFails<T>(maxSize: int, kind: string, blank: T, args: SpawnArgs, b: Behaviour<T>)
    requires kind != "wall"
    ensures Get(Create(maxSize, kind, blank), args, b) == Undefined(maxSize - 1)
  {
  }

  // ---------------------------------------------------------------------------
  // get

  lemma GetPermutes<T>(p: Pool<T>, args: SpawnArgs, b: Behaviour<T>)
    ensures var r := Get(p, args, b);
            r.Ok? ==> multiset(Ids(r.value.slots)) == multiset(Ids(p.slots))
  {
    var last := p.size - 1;
    if 0 <= last < |p.slots| && !p.slots[last].alive {
      var t := p.slots[last := Spawn(p.slots[last], args, b)];
      IdsUpdate(p.slots, last, Spawn(p.slots[last], args, b));
      RotatePermutes(t);
    }
  }

  lemma GetKeepsValid<T>(p: Pool<T>, args: SpawnArgs, b: Behaviour<T>)
    requires Valid(p)
    ensures Get(p, args, b).Ok? && Valid(Get(p, args, b).value)
  {
    var r := Get(p, args, b).value;
    if !p.slots[p.size - 1].alive {
      forall j, k | 0 <= j < k < |r.slots| && r.slots[k].alive
        ensures r.slots[j].alive
      {
        if j > 0 {
          assert p.slots[k - 1].alive;
        }
      }
    }
  }

  /** A request is served exactly when the pool has a free slot; a full pool
      drops it and stays as it was. */
  lemma GetFillsFreeSlot<T>(p: Pool<T>, args: SpawnArgs, b: Behaviour<T>)
    requires Valid(p)
    ensures var r := Get(p, args, b);
            && r.Ok?
            && (CountAlive(p.slots) < p.size ==> CountAlive(r.value.slots) == CountAlive(p.slots) + 1)
            && (CountAlive(p.slots) == p.size <==> r == Ok(p))
  {
    PrefixCount(p.slots);
    var n := p.size;
    var r := Get(p, args, b).value;
    if CountAlive(p.slots) < n {
      assert !p.slots[n - 1].alive;
      var front := p.slots[..n - 1];
      assert r.slots == [Spawn(p.slots[n - 1], args, b)] + front;
      assert p.slots == front + [p.slots[n - 1]];
      CountAliveAppend([Spawn(p.slots[n - 1], args, b)], front);
      CountAliveAppend(front, [p.slots[n - 1]]);
    }
  }

  // ---------------------------------------------------------------------------
  // getTwo

  lemma GetTwoPermutes<T>(p: Pool<T>, first: SpawnArgs, second: SpawnArgs, b: Behaviour<T>)
    ensures var r := GetTwo(p, first, second, b);
            r.Ok? ==> multiset(Ids(r.value.slots)) == multiset(Ids(p.slots))
  {
    var r := GetTwo(p, first, second, b);
    if r.Ok? && r != Ok(p) {
      var p1 := Get(p, first, b).value;
      GetPermutes(p, first, b);
      GetPermutes(p1, second, b);
    }
  }

  lemma GetTwoKeepsValid<T>(p: Pool<T>, first: SpawnArgs, second: SpawnArgs, b: Behaviour<T>)
    requires Valid(p) && p.size >= 2
    ensures GetTwo(p, first, second, b).Ok? && Valid(GetTwo(p, first, second, b).value)
  {
    GetKeepsValid(p, first, b);
    GetKeepsValid(Get(p, first, b).value, second, b);
  }

  /** `getTwo` is all or nothing: two more alive elements when two slots are
      free, otherwise no change at all. */
  lemma GetTwoAllOrNothing<T>(p: Pool<T>, first: SpawnArgs, second: SpawnArgs, b: Behaviour<T>)
    requires Valid(p) && p.size >= 2
    ensures var r := GetTwo(p, first, second, b);
            && r.Ok?
            && (CountAlive(p.slots) + 2 <= p.size ==> CountAlive(r.value.slots) == CountAlive(p.slots) + 2)
            && (CountAlive(p.slots) + 2 > p.size ==> r == Ok(p))
  {
    PrefixCount(p.slots);
    if CountAlive(p.slots) + 2 <= p.size {
      var p1 := Get(p, first, b).value;
      GetFillsFreeSlot(p, first, b);
      GetKeepsValid(p, first, b);
      GetFillsFreeSlot(p1, second, b);
    }
  }

  // ---------------------------------------------------------------------------
  // animate

  /** A filled pool never raises in `animate`. */
  lemma {:induction false} AnimateDefined<T>(p: Pool<T>, i: nat, b: Behaviour<T>)
    requires |p.slots| == p.size
    ensures AnimateFrom(p, i, b).Ok?
    decreases p.size - i
  {
    if i < p.size && p.slots[i].alive {
      var e := Redraw(p.slots[i], b);
      if b.draw(p.slots[i].data).offScreen {
        AnimateDefined(p.(slots := MoveToTail(p.slots[i := Clear(e, b)], i)), i + 1, b);
      } else {
        AnimateDefined(p.(slots := p.slots[i := e]), i + 1, b);
      }
    }
  }

  lemma {:induction false} AnimatePermutes<T>(p: Pool<T>, i: nat, b: Behaviour<T>)
    ensures var r := AnimateFrom(p, i, b);
            r.Ok? ==> multiset(Ids(r.value.slots)) == multiset(Ids(p.slots))
    decreases p.size - i
  {
    if i < p.size && i < |p.slots| && p.slots[i].alive {
      var e := Redraw(p.slots[i], b);
      IdsUpdate(p.slots, i, e);
      if b.draw(p.slots[i].data).offScreen {
        var t := p.slots[i := Clear(e, b)];
        IdsUpdate(p.slots, i, Clear(e, b));
        MoveToTailPermutes(t, i);
        AnimatePermutes(p.(slots := MoveToTail(t, i)), i + 1, b);
      } else {
        AnimatePermutes(p.(slots := p.slots[i := e]), i + 1, b);
      }
    }
  }

  /** `animate` keeps the alive elements in front. */
  lemma {:induction false} AnimateKeepsPrefix<T>(p: Pool<T>, i: nat, b: Behaviour<T>)
    requires AlivePrefix(p.slots)
    ensures var r := AnimateFrom(p, i, b);
            r.Ok? ==> AlivePrefix(r.value.slots)
    decreases p.size - i
  {
    if i < p.size && i < |p.slots| && p.slots[i].alive {
      var s := p.slots;
      var e := Redraw(s[i], b);
      if b.draw(s[i].data).offScreen {
        var t := MoveToTail(s[i := Clear(e, b)], i);
        forall j, k | 0 <= j < k < |t| && t[k].alive
          ensures t[j].alive
        {
          assert k < |s| - 1;
          assert t[k] == if k < i then s[k] else s[k + 1];
          assert t[j] == if j < i then s[j] else s[j + 1];
        }
        AnimateKeepsPrefix(p.(slots := t), i + 1, b);
      } else {
        AnimateKeepsPrefix(p.(slots := s[i := e]), i + 1, b);
      }
    }
  }

  /** `animate` never puts one element in two slots: its splice-and-push only
      moves elements, so distinct identities stay distinct. */
  lemma {:induction false} AnimateKeepsDistinct<T>(p: Pool<T>, i: nat, b: Behaviour<T>)
    requires DistinctIds(p.slots)
    ensures var r := AnimateFrom(p, i, b);
            r.Ok? ==> DistinctIds(r.value.slots)
    decreases p.size - i
  {
    if i < p.size && i < |p.slots| && p.slots[i].alive {
      var s := p.slots;
      var e := Redraw(s[i], b);
      if b.draw(s[i].data).offScreen {
        var u := s[i := Clear(e, b)];
        var t := MoveToTail(u, i);
        forall j, k | 0 <= j < k < |t|
          ensures t[j].id != t[k].id
        {
          var j' := if j < i then j else j + 1;
          var k' := if k == |t| - 1 then i else if k < i then k else k + 1;
          assert t[j] == u[j'] && t[k] == u[k'] && j' != k';
        }
        AnimateKeepsDistinct(p.(slots := t), i + 1, b);
      } else {
        AnimateKeepsDistinct(p.(slots := s[i := e]), i + 1, b);
      }
    }
  }

  /** A valid pool stays valid across `animate`. */
  lemma AnimateKeepsValid<T>(p: Pool<T>, b: Behaviour<T>)
    requires Valid(p)
    ensures AnimateFrom(p, 0, b).Ok? && Valid(AnimateFrom(p, 0, b).value)
  {
    AnimateDefined(p, 0, b);
    AnimateKeepsPrefix(p, 0, b);
    AnimateKeepsDistinct(p, 0, b);
  }

  /** `animate` neither draws nor moves nor revives a dead element: every dead
      element is still in the pool, unchanged. */
  lemma {:induction false} AnimateKeepsDead<T>(p: Pool<T>, i: nat, b: Behaviour<T>)
    ensures var r := AnimateFrom(p, i, b);
            r.Ok? ==> forall k :: 0 <= k < |p.slots| && !p.slots[k].alive ==> p.slots[k] in r.value.slots
    decreases p.size - i
  {
    if i < p.size && i < |p.slots| && p.slots[i].alive {
      var s := p.slots;
      var e := Redraw(s[i], b);
      if b.draw(s[i].data).offScreen {
        var t := MoveToTail(s[i := Clear(e, b)], i);
        AnimateKeepsDead(p.(slots := t), i + 1, b);
        forall k | 0 <= k < |s| && !s[k].alive
          ensures s[k] in t
        {
          if k < i {
            assert t[k] == s[k];
          } else {
            assert t[k - 1] == s[k];
          }
        }
      } else {
        AnimateKeepsDead(p.(slots := s[i := e]), i + 1, b);
        forall k | 0 <= k < |s| && !s[k].alive
          ensures s[k] in s[i := e]
        {
          assert s[i := e][k] == s[k];
        }
      }
    }
  }

  /** An alive element that `animate` draws and that reports leaving the screen
      ends up cleared, in the pool, behind every alive element. */
  lemma AnimateRetiresOffScreen<T>(p: Pool<T>, i: nat, b: Behaviour<T>)
    requires i < p.size == |p.slots| && AlivePrefix(p.slots)
    requires p.slots[i].alive && b.draw(p.slots[i].data).offScreen
    ensures var r := AnimateFrom(p, i, b);
            var c := Clear(Redraw(p.slots[i], b), b);
            && r.Ok?
            && c in r.value.slots
            && forall k :: 0 <= k < |r.value.slots| && r.value.slots[k] == c ==>
                 forall j :: k < j < |r.value.slots| ==> !r.value.slots[j].alive
  {
    var c := Clear(Redraw(p.slots[i], b), b);
    var q := p.(slots := MoveToTail(p.slots[i := c], i));
    assert q.slots[|q.slots| - 1] == c;
    AnimateKeepsDead(q, i + 1, b);
    AnimateKeepsPrefix(p, i, b);
    AnimateDefined(p, i, b);
  }

  /** `animate` never spawns: it can only lower the number of alive elements. */
  lemma {:induction false} AnimateNeverSpawns<T>(p: Pool<T>, i: nat, b: Behaviour<T>)
    ensures var r := AnimateFrom(p, i, b);
            r.Ok? ==> CountAlive(r.value.slots) <= CountAlive(p.slots)
    decreases p.size - i
  {
    if i < p.size && i < |p.slots| && p.slots[i].alive {
      var s := p.slots;
      var e := Redraw(s[i], b);
      if b.draw(s[i].data).offScreen {
        MoveToTailCount(s, i, Clear(e, b));
        AnimateNeverSpawns(p.(slots := MoveToTail(s[i := Clear(e, b)], i)), i + 1, b);
      } else {
        var t := s[i := e];
        assert t == s[..i] + [e] + s[i + 1..];
        assert s == s[..i] + [s[i]] + s[i + 1..];
        CountAliveAppend(s[..i] + [e], s[i + 1..]);
        CountAliveAppend(s[..i], [e]);
        CountAliveAppend(s[..i] + [s[i]], s[i + 1..]);
        CountAliveAppend(s[..i], [s[i]]);
        AnimateNeverSpawns(p.(slots := t), i + 1, b);
      }
    }
  }

  /** When no alive element reports leaving the screen, `animate` draws every
      alive element from index `i` on, in place, and touches nothing else. */
  lemma {:induction false} AnimateAllOnScreen<T>(p: Pool<T>, i: nat, b: Behaviour<T>)
    requires |p.slots| == p.size && i <= p.size && AlivePrefix(p.slots)
    requires forall k :: i <= k < |p.slots| && p.slots[k].alive ==> !b.draw(p.slots[k].data).offScreen
    ensures var r := AnimateFrom(p, i, b);
            && r.Ok?
            && (forall k :: 0 <= k < i ==> r.value.slots[k] == p.slots[k])
            && (forall k :: i <= k < |p.slots| ==>
                  r.value.slots[k] == if p.slots[k].alive then Redraw(p.slots[k], b) else p.slots[k])
    decreases p.size - i
  {
    var s := p.slots;
    if i < p.size {
      if s[i].alive {
        var t := s[i := Redraw(s[i], b)];
        assert AlivePrefix(t) by {
          forall j, k | 0 <= j < k < |t| && t[k].alive
            ensures t[j].alive
          {
            assert s[k].alive;
          }
        }
        AnimateAllOnScreen(p.(slots := t), i + 1, b);
      } else {
        forall k | i <= k < |s|
          ensures !s[k].alive
        {
          if k > i {
            assert !s[i].alive ==> !s[k].alive;
          }
        }
      }
    }
  }

  /** The pass from index `j` on never touches the slots before `j`. */
  lemma {:induction false} AnimateKeepsBefore<T>(p: Pool<T>, j: nat, b: Behaviour<T>)
    ensures var r := AnimateFrom(p, j, b);
            r.Ok? ==> forall k :: 0 <= k < j && k < |p.slots| ==> r.value.slots[k] == p.slots[k]
    decreases p.size - j
  {
    if j < p.size && j < |p.slots| && p.slots[j].alive {
      var e := Redraw(p.slots[j], b);
      if b.draw(p.slots[j].data).offScreen {
        AnimateKeepsBefore(p.(slots := MoveToTail(p.slots[j := Clear(e, b)], j)), j + 1, b);
      } else {
        AnimateKeepsBefore(p.(slots := p.slots[j := e]), j + 1, b);
      }
    }
  }

  /** The loop-index skip in general: when slot `i` is drawn and reports leaving
      the screen, the pass continues at index `i + 1` of the spliced array, whose
      slot `i` now holds the element that followed. That element is still in slot
      `i`, undrawn, when the pass ends. */
  lemma AnimateSkipsAfterSplice<T>(p: Pool<T>, i: nat, b: Behaviour<T>)
    requires i + 1 < p.size == |p.slots|
    requires p.slots[i].alive && b.draw(p.slots[i].data).offScreen
    ensures var q := p.(slots := MoveToTail(p.slots[i := Clear(Redraw(p.slots[i], b), b)], i));
            && q.slots[i] == p.slots[i + 1]
            && AnimateFrom(p, i, b) == AnimateFrom(q, i + 1, b)
    ensures AnimateFrom(p, i, b).Ok? && AnimateFrom(p, i, b).value.slots[i] == p.slots[i + 1]
  {
    var q := p.(slots := MoveToTail(p.slots[i := Clear(Redraw(p.slots[i], b), b)], i));
    AnimateDefined(q, i + 1, b);
    AnimateKeepsBefore(q, i + 1, b);
  }

  /** The slot index still advances after a splice, so the element that slides
      into the freed slot is skipped. Three alive elements that all report leaving
      the screen: the first and third are drawn, cleared and moved to the tail,
      the second is never drawn and stays alive in front. */
  lemma AnimateSkipsSlidElement()
    ensures
      var b := Behaviour((d: int, a: SpawnArgs) => d, (d: int) => DrawResult(d + 1, true), (d: int) => d);
      var p := Pool(3, [Elem(0, true, 0), Elem(1, true, 0), Elem(2, true, 0)]);
      AnimateFrom(p, 0, b) == Ok(Pool(3, [Elem(1, true, 0), Elem(0, false, 1), Elem(2, false, 1)]))
  {
    var b := Behaviour((d: int, a: SpawnArgs) => d, (d: int) => DrawResult(d + 1, true), (d: int) => d);
    var p := Pool(3, [Elem(0, true, 0), Elem(1, true, 0), Elem(2, true, 0)]);
    var p1 := Pool(3, [Elem(1, true, 0), Elem(2, true, 0), Elem(0, false, 1)]);
    var p2 := Pool(3, [Elem(1, true, 0), Elem(0, false, 1), Elem(2, false, 1)]);
    assert MoveToTail(p.slots[0 := Elem(0, false, 1)], 0) == p1.slots;
    assert AnimateFrom(p, 0, b) == AnimateFrom(p1, 1, b);
    assert MoveToTail(p1.slots[1 := Elem(2, false, 1)], 1) == p2.slots;
    assert AnimateFrom(p1, 1, b) == AnimateFrom(p2, 2, b);
  }

  // ---------------------------------------------------------------------------
  // A worked scenario

  /** Capacity two, both slots free: the first request fills one slot at (5, 5),
      the second fills the other, the third is dropped. */
  lemma CapacityTwoScenario()
    ensures
      var b := Behaviour((d: SpawnArgs, a: SpawnArgs) => a, (d: SpawnArgs) => DrawResult(d, false), (d: SpawnArgs) => d);
      var p0 := Create(2, "wall", SpawnArgs(0.0, 0.0, 0.0));
      var r1 := Get(p0, SpawnArgs(5.0, 5.0, 1.0), b);
      && r1.Ok? && CountAlive(r1.value.slots) == 1
      && r1.value.slots[0] == Elem(1, true, SpawnArgs(5.0, 5.0, 1.0))
      && var r2 := Get(r1.value, SpawnArgs(7.0, 7.0, 1.0), b);
      && r2.Ok? && CountAlive(r2.value.slots) == 2
      && r2.value.slots == [Elem(0, true, SpawnArgs(7.0, 7.0, 1.0)), Elem(1, true, SpawnArgs(5.0, 5.0, 1.0))]
      && Get(r2.value, SpawnArgs(9.0, 9.0, 1.0), b) == r2
  {
    var b := Behaviour((d: SpawnArgs, a: SpawnArgs) => a, (d: SpawnArgs) => DrawResult(d, false), (d: SpawnArgs) => d);
    var p0 := Create(2, "wall", SpawnArgs(0.0, 0.0, 0.0));
    var r1 := Get(p0, SpawnArgs(5.0, 5.0, 1.0), b);
    assert r1.value.slots == [Elem(1, true, SpawnArgs(5.0, 5.0, 1.0)), Elem(0, false, SpawnArgs(0.0, 0.0, 0.0))];
    assert CountAlive(r1.value.slots[1..]) == 0;
    var r2 := Get(r1.value, SpawnArgs(7.0, 7.0, 1.0), b);
    assert r2.value.slots == [Elem(0, true, SpawnArgs(7.0, 7.0, 1.0)), Elem(1, true, SpawnArgs(5.0, 5.0, 1.0))];
    assert CountAlive(r2.value.slots[1..]) == 1;
  }
}
