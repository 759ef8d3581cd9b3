/**
  The _CRS walk (`int3472_parse_crs`): the resource callback applied to every
  entry of the firmware resource list, in firmware order, threading the
  device context through.

  How the kernel's resource iterator reacts to the callback's return codes
  is not part of this model: the walk visits every entry and records each
  return code. `WalkAppend` shows that a walk stopped after any prefix is
  the walk of that prefix, so every property below also holds of whatever
  prefix the iterator actually visits.
 */
module Crs {
  import opened Acpi
  import opened Gpio

  /** The context after the walk, the _DSM selectors queried in order, and the
      callback's return code for each entry. */
  datatype WalkResult = WalkResult(ctx: Context, queries: seq<u32>, rets: seq<int>)

  function QueryList(q: Option<u32>): seq<u32> {
    match q
    case None => []
    case Some(s) => [s]
  }

  /** Number of GPIO/IO entries in a resource list. */
  function GpioCount(rs: seq<Resource>): (k: nat)
    ensures k <= |rs|
  {
    if |rs| == 0 then 0
    else GpioCount(rs[..|rs| - 1]) + (if IsGpioIo(rs[|rs| - 1]) then 1 else 0)
  }

  /** The GPIO/IO descriptors of a resource list, in list order. */
  function GpioPins(rs: seq<Resource>): (gs: seq<GpioDescriptor>)
    ensures |gs| == GpioCount(rs)
  {
    if |rs| == 0 then []
    else GpioPins(rs[..|rs| - 1]) + (if IsGpioIo(rs[|rs| - 1]) then [rs[|rs| - 1].gpio] else [])
  }

  /** The entries of a resource list that the callback classifies. */
  function GpioOnly(rs: seq<Resource>): (gs: seq<Resource>)
    ensures |gs| == GpioCount(rs)
    ensures forall i :: 0 <= i < |gs| ==> IsGpioIo(gs[i])
  {
    if |rs| == 0 then []
    else GpioOnly(rs[..|rs| - 1]) + (if IsGpioIo(rs[|rs| - 1]) then [rs[|rs| - 1]] else [])
  }

  /** The callback folded over the list, first entry first. */
  function Walk(ctx: Context, rs: seq<Resource>, dsm: u32 -> Option<u64>, sink: SinkCall -> int): (w: WalkResult)
    ensures |w.rets| == |rs|
    decreases |rs|
  {
    if |rs| == 0 then WalkResult(ctx, [], [])
    else
      var w := Walk(ctx, rs[..|rs| - 1], dsm, sink);
      var s := Step(w.ctx, rs[|rs| - 1], dsm, sink);
      WalkResult(s.ctx, w.queries + QueryList(s.query), w.rets + [s.ret])
  }

  /** One more entry is one more callback, on the context the others left. */
  lemma WalkUnfold(ctx: Context, rs: seq<Resource>, dsm: u32 -> Option<u64>, sink: SinkCall -> int)
    requires |rs| > 0
    ensures var w := Walk(ctx, rs[..|rs| - 1], dsm, sink);
            var s := Step(w.ctx, rs[|rs| - 1], dsm, sink);
            Walk(ctx, rs, dsm, sink) == WalkResult(s.ctx, w.queries + QueryList(s.query), w.rets + [s.ret])
  {
  }

  /** The counter after one callback, when it cannot wrap: one more exactly
      when the callback's query was answered. */
  lemma StepCounter(c: Context, x: Resource, dsm: u32 -> Option<u64>, sink: SinkCall -> int)
    requires c.nGpios + 2 < U32_MODULUS
    ensures var s := Step(c, x, dsm, sink);
            && |QueryList(s.query)| == (if IsGpioIo(x) then 1 else 0)
            && s.ctx.nGpios == c.nGpios + CountAnswered(QueryList(s.query), dsm)
  {
    var s := Step(c, x, dsm, sink);
    if s.query.Some? {
      assert QueryList(s.query)[..0] == [];
    }
  }

  /** The firmware answers the `k` selectors `n + 2`, ..., `n + 1 + k`: the
      ones a walk asks when it classifies `k` pins starting from counter
      `n`. Other selectors may go unanswered. */
  ghost predicate AnswersPins(dsm: u32 -> Option<u64>, n: nat, k: nat) {
    forall s: u32 :: n + 2 <= s < n + 2 + k ==> dsm(s).Some?
  }

  /** The counter cannot wrap during a walk of `rs` from `ctx`, not even in
      the selector `n_gpios + 2`. */
  predicate NoWrap(ctx: Context, rs: seq<Resource>) {
    ctx.nGpios + GpioCount(rs) + 2 < U32_MODULUS
  }

  /** The tables only grow, by at most one entry per GPIO/IO entry, the
      return codes line up with the entries, skipped entries return positive
      EINVAL, and the lookup labels stay among those the driver hands out. */
  lemma {:induction false} WalkGrows(ctx: Context, rs: seq<Resource>, dsm: u32 -> Option<u64>, sink: SinkCall -> int)
    ensures var w := Walk(ctx, rs, dsm, sink);
            && ctx.gpios <= w.ctx.gpios && ctx.regulators <= w.ctx.regulators
            && |w.ctx.gpios| + |w.ctx.regulators| <= |ctx.gpios| + |ctx.regulators| + GpioCount(rs)
            && (forall i :: 0 <= i < |rs| && !IsGpioIo(rs[i]) ==> w.rets[i] == EINVAL)
            && (LabelsValid(ctx) ==> LabelsValid(w.ctx))
    decreases |rs|
  {
    if |rs| > 0 {
      var init := rs[..|rs| - 1];
      WalkGrows(ctx, init, dsm, sink);
      var w := Walk(ctx, init, dsm, sink);
      var s := Step(w.ctx, rs[|rs| - 1], dsm, sink);
      WalkUnfold(ctx, rs, dsm, sink);
      StepGrows(w.ctx, rs[|rs| - 1], dsm, sink);
      forall i | 0 <= i < |rs| && !IsGpioIo(rs[i])
        ensures (w.rets + [s.ret])[i] == EINVAL
      {
        if i < |init| {
          assert rs[i] == init[i];
        }
      }
    }
  }

  /** Number of queries in `qs` that the _DSM method answered. */
  function CountAnswered(qs: seq<u32>, dsm: u32 -> Option<u64>): (k: nat)
    ensures k <= |qs|
  {
    if |qs| == 0 then 0
    else CountAnswered(qs[..|qs| - 1], dsm) + (if dsm(qs[|qs| - 1]).Some? then 1 else 0)
  }

  lemma CountAnsweredAppend(xs: seq<u32>, ys: seq<u32>, dsm: u32 -> Option<u64>)
    requires |ys| <= 1
    ensures CountAnswered(xs + ys, dsm) == CountAnswered(xs, dsm) + CountAnswered(ys, dsm)
  {
    if |ys| == 1 {
      assert (xs + ys)[..|xs + ys| - 1] == xs;
      assert ys[..0] == [];
    } else {
      assert xs + ys == xs;
    }
  }

  /** Exactly the GPIO/IO entries query the _DSM method, once each, whatever
      the firmware answers and whatever the counter's value. */
  lemma {:induction false} WalkQueryCount(ctx: Context, rs: seq<Resource>, dsm: u32 -> Option<u64>, sink: SinkCall -> int)
    ensures |Walk(ctx, rs, dsm, sink).queries| == GpioCount(rs)
    decreases |rs|
  {
    if |rs| > 0 {
      WalkQueryCount(ctx, rs[..|rs| - 1], dsm, sink);
      WalkUnfold(ctx, rs, dsm, sink);
    }
  }

  /** Exactly the GPIO/IO entries query the _DSM method, once each, and
      the counter advances once per answered query and never otherwise,
      whatever the firmware answers. */
  lemma {:induction false} WalkCounter(ctx: Context, rs: seq<Resource>, dsm: u32 -> Option<u64>, sink: SinkCall -> int)
    requires NoWrap(ctx, rs)
    ensures |Walk(ctx, rs, dsm, sink).queries| == GpioCount(rs)
    ensures var w := Walk(ctx, rs, dsm, sink);
            w.ctx.nGpios == ctx.nGpios + CountAnswered(w.queries, dsm)
    decreases |rs|
  {
    if |rs| > 0 {
      var init, x := rs[..|rs| - 1], rs[|rs| - 1];
      WalkCounter(ctx, init, dsm, sink);
      var w := Walk(ctx, init, dsm, sink);
      var s := Step(w.ctx, x, dsm, sink);
      WalkUnfold(ctx, rs, dsm, sink);
      StepCounter(w.ctx, x, dsm, sink);
      CountAnsweredAppend(w.queries, QueryList(s.query), dsm);
    }
  }

  /** When the firmware answers the selectors the pins ask, the counter ends
      at `n` plus the number of GPIO/IO entries. */
  lemma {:induction false} WalkCountsPins(ctx: Context, rs: seq<Resource>, dsm: u32 -> Option<u64>, sink: SinkCall -> int)
    requires AnswersPins(dsm, ctx.nGpios, GpioCount(rs)) && NoWrap(ctx, rs)
    ensures Walk(ctx, rs, dsm, sink).ctx.nGpios == ctx.nGpios + GpioCount(rs)
    decreases |rs|
  {
    if |rs| > 0 {
      var init := rs[..|rs| - 1];
      WalkCountsPins(ctx, init, dsm, sink);
      var w := Walk(ctx, init, dsm, sink);
      WalkUnfold(ctx, rs, dsm, sink);
      if IsGpioIo(rs[|rs| - 1]) {
        assert dsm(Selector(w.ctx.nGpios)).Some?;
      }
    }
  }

  /** When the firmware answers the selectors the pins ask, the k-th GPIO/IO
      entry queries selector `n + 2 + k`, with no gaps, and non-GPIO entries
      consume no selector. */
  lemma {:induction false} WalkSelectors(ctx: Context, rs: seq<Resource>, dsm: u32 -> Option<u64>, sink: SinkCall -> int)
    requires AnswersPins(dsm, ctx.nGpios, GpioCount(rs)) && NoWrap(ctx, rs)
    ensures Walk(ctx, rs, dsm, sink).queries == seq(GpioCount(rs), i => ctx.nGpios + 2 + i)
    decreases |rs|
  {
    if |rs| > 0 {
      var init := rs[..|rs| - 1];
      WalkSelectors(ctx, init, dsm, sink);
      WalkCountsPins(ctx, init, dsm, sink);
      var w := Walk(ctx, init, dsm, sink);
      var s := Step(w.ctx, rs[|rs| - 1], dsm, sink);
      WalkUnfold(ctx, rs, dsm, sink);
    }
  }

  /** A walk over a fresh context whose selectors 2, 3, 4, ... are answered
      queries exactly those, and ends with the counter equal to the number of
      GPIO/IO entries. */
  lemma FreshWalkSelectors(rs: seq<Resource>, dsm: u32 -> Option<u64>, sink: SinkCall -> int)
    requires AnswersPins(dsm, 0, GpioCount(rs)) && GpioCount(rs) + 2 < U32_MODULUS
    ensures Walk(EmptyContext, rs, dsm, sink).ctx.nGpios == GpioCount(rs)
    ensures |Walk(EmptyContext, rs, dsm, sink).queries| == GpioCount(rs)
    ensures forall i :: 0 <= i < GpioCount(rs) ==> Walk(EmptyContext, rs, dsm, sink).queries[i] == i + 2
  {
    WalkCountsPins(EmptyContext, rs, dsm, sink);
    WalkSelectors(EmptyContext, rs, dsm, sink);
  }

  /** A missing _DSM answer leaves the counter where it was: if the walk
      goes on past the -ENODEV return, the next GPIO/IO entry queries the
      same selector. */
  lemma MissingAnswerRepeatsSelector(ctx: Context, a: Resource, b: Resource, dsm: u32 -> Option<u64>, sink: SinkCall -> int)
    requires IsGpioIo(a) && IsGpioIo(b) && dsm(Selector(ctx.nGpios)).None?
    ensures Walk(ctx, [a, b], dsm, sink).queries == [Selector(ctx.nGpios), Selector(ctx.nGpios)]
    ensures Walk(ctx, [a, b], dsm, sink).ctx == ctx
    ensures Walk(ctx, [a, b], dsm, sink).rets == [-ENODEV, -ENODEV]
  {
    assert [a, b][..1] == [a];
    assert [a][..0] == [];
    assert Walk(ctx, [], dsm, sink) == WalkResult(ctx, [], []);
    var s := Step(ctx, a, dsm, sink);
    assert s.ctx == ctx && s.ret == -ENODEV && s.query == Some(Selector(ctx.nGpios));
    assert Walk(ctx, [a], dsm, sink) == WalkResult(ctx, [Selector(ctx.nGpios)], [-ENODEV]);
  }

  /** Walking a concatenation is walking the first part, then the second
      from where the first left off. */
  lemma {:induction false} WalkAppend(ctx: Context, xs: seq<Resource>, ys: seq<Resource>, dsm: u32 -> Option<u64>,
                                      sink: SinkCall -> int)
    ensures var a := Walk(ctx, xs, dsm, sink);
            var b := Walk(a.ctx, ys, dsm, sink);
            Walk(ctx, xs + ys, dsm, sink) == WalkResult(b.ctx, a.queries + b.queries, a.rets + b.rets)
    decreases |ys|
  {
    if |ys| == 0 {
      assert xs + ys == xs;
    } else {
      WalkAppend(ctx, xs, ys[..|ys| - 1], dsm, sink);
      AppendStep(ctx, xs, ys, dsm, sink);
    }
  }

  /** The inductive step of `WalkAppend`: one more entry at the end of the
      second part. */
  lemma AppendStep(ctx: Context, xs: seq<Resource>, ys: seq<Resource>, dsm: u32 -> Option<u64>, sink: SinkCall -> int)
    requires |ys| > 0
    requires var a := Walk(ctx, xs, dsm, sink);
             var b := Walk(a.ctx, ys[..|ys| - 1], dsm, sink);
             Walk(ctx, xs + ys[..|ys| - 1], dsm, sink) == WalkResult(b.ctx, a.queries + b.queries, a.rets + b.rets)
    ensures var a := Walk(ctx, xs, dsm, sink);
            Walk(ctx, xs + ys, dsm, sink).ctx == Walk(a.ctx, ys, dsm, sink).ctx
    ensures var a := Walk(ctx, xs, dsm, sink);
            Walk(ctx, xs + ys, dsm, sink).queries == a.queries + Walk(a.ctx, ys, dsm, sink).queries
    ensures var a := Walk(ctx, xs, dsm, sink);
            Walk(ctx, xs + ys, dsm, sink).rets == a.rets + Walk(a.ctx, ys, dsm, sink).rets
  {
    var a := Walk(ctx, xs, dsm, sink);
    var b' := Walk(a.ctx, ys[..|ys| - 1], dsm, sink);
    var s := Step(b'.ctx, ys[|ys| - 1], dsm, sink);
    SnocSplit(xs, ys);
    WalkUnfold(ctx, xs + ys, dsm, sink);
    WalkUnfold(a.ctx, ys, dsm, sink);
    Assoc(a.queries, b'.queries, QueryList(s.query));
    Assoc(a.rets, b'.rets, [s.ret]);
  }

  /** Concatenation is associative. */
  lemma Assoc<T>(p: seq<T>, q: seq<T>, r: seq<T>)
    ensures (p + q) + r == p + (q + r)
  {
  }

  /** Dropping the last entry of a concatenation drops it from the second part. */
  lemma SnocSplit(xs: seq<Resource>, ys: seq<Resource>)
    requires |ys| > 0
    ensures (xs + ys)[..|xs + ys| - 1] == xs + ys[..|ys| - 1]
    ensures (xs + ys)[|xs + ys| - 1] == ys[|ys| - 1]
  {
  }

  /** Entries that are not GPIO/IO do not influence the context or the
      queries: the walk over the GPIO/IO entries alone ends the same way. */
  lemma {:induction false} WalkSkipsOthers(ctx: Context, rs: seq<Resource>, dsm: u32 -> Option<u64>, sink: SinkCall -> int)
    ensures Walk(ctx, GpioOnly(rs), dsm, sink).ctx == Walk(ctx, rs, dsm, sink).ctx
    ensures Walk(ctx, GpioOnly(rs), dsm, sink).queries == Walk(ctx, rs, dsm, sink).queries
    decreases |rs|
  {
    if |rs| > 0 {
      var init := rs[..|rs| - 1];
      var x := rs[|rs| - 1];
      WalkSkipsOthers(ctx, init, dsm, sink);
      var w := Walk(ctx, init, dsm, sink);
      var s := Step(w.ctx, x, dsm, sink);
      WalkUnfold(ctx, rs, dsm, sink);
      var v := Walk(ctx, GpioOnly(init), dsm, sink);
      if IsGpioIo(x) {
        var gs := GpioOnly(init) + [x];
        assert GpioOnly(rs) == gs;
        assert gs[..|gs| - 1] == GpioOnly(init);
        var t := Step(v.ctx, x, dsm, sink);
        WalkUnfold(ctx, gs, dsm, sink);
      } else {
        assert GpioOnly(rs) == GpioOnly(init);
        assert w.queries + QueryList(s.query) == w.queries;
      }
    }
  }

  /** A list without GPIO/IO entries leaves the context untouched and makes
      no query. */
  lemma {:induction false} NoGpioNoChange(ctx: Context, rs: seq<Resource>, dsm: u32 -> Option<u64>, sink: SinkCall -> int)
    requires GpioCount(rs) == 0
    ensures Walk(ctx, rs, dsm, sink).ctx == ctx
    ensures Walk(ctx, rs, dsm, sink).queries == []
    decreases |rs|
  {
    if |rs| > 0 {
      NoGpioNoChange(ctx, rs[..|rs| - 1], dsm, sink);
    }
  }

  /** Reference definition of the tables, by position among the GPIO/IO
      entries rather than by running counter: the i-th pin of a walk that
      starts at counter `n` is classified from selector `n + 2 + i`. */
  function CategoryAt(dsm: u32 -> Option<u64>, n: u32, i: nat): PinCategory
    requires n + 2 + i < U32_MODULUS && dsm(n + 2 + i).Some?
  {
    Classify(LowByte(dsm(n + 2 + i).value))
  }

  function ExpectedLookups(gs: seq<GpioDescriptor>, dsm: u32 -> Option<u64>, n: u32): seq<LookupEntry>
    requires n + |gs| + 2 < U32_MODULUS && AnswersPins(dsm, n, |gs|)
  {
    if |gs| == 0 then []
    else
      var i := |gs| - 1;
      ExpectedLookups(gs[..i], dsm, n) + LookupsFor(gs[i], CategoryAt(dsm, n, i))
  }

  function ExpectedRegulators(gs: seq<GpioDescriptor>, dsm: u32 -> Option<u64>, n: u32): seq<GpioDescriptor>
    requires n + |gs| + 2 < U32_MODULUS && AnswersPins(dsm, n, |gs|)
  {
    if |gs| == 0 then []
    else
      var i := |gs| - 1;
      ExpectedRegulators(gs[..i], dsm, n) + RegulatorsFor(gs[i], CategoryAt(dsm, n, i))
  }

  lemma ExpectedSnoc(gs: seq<GpioDescriptor>, g: GpioDescriptor, dsm: u32 -> Option<u64>, n: u32)
    requires n + |gs| + 3 < U32_MODULUS && AnswersPins(dsm, n, |gs| + 1)
    ensures ExpectedLookups(gs + [g], dsm, n) == ExpectedLookups(gs, dsm, n) + LookupsFor(g, CategoryAt(dsm, n, |gs|))
    ensures ExpectedRegulators(gs + [g], dsm, n) == ExpectedRegulators(gs, dsm, n) + RegulatorsFor(g, CategoryAt(dsm, n, |gs|))
  {
    assert (gs + [g])[..|gs|] == gs;
  }

  /** One answered pin at position `i` of a walk that started at counter
      `n` adds what the reference classification of position `i` calls for. */
  lemma StepAt(c: Context, x: Resource, dsm: u32 -> Option<u64>, sink: SinkCall -> int, n: u32, i: nat)
    requires IsGpioIo(x) && c.nGpios == n + i && n + i + 2 < U32_MODULUS && dsm(n + 2 + i).Some?
    ensures Step(c, x, dsm, sink).ctx.gpios == c.gpios + LookupsFor(x.gpio, CategoryAt(dsm, n, i))
    ensures Step(c, x, dsm, sink).ctx.regulators == c.regulators + RegulatorsFor(x.gpio, CategoryAt(dsm, n, i))
  {
    assert Selector(c.nGpios) == n + 2 + i;
    StepGrows(c, x, dsm, sink);
  }

  /** The inductive step of `WalkTables`: one more callback on a context
      whose tables are the reference tables of the pins `gs` seen so far. */
  lemma TablesStep(c: Context, gs: seq<GpioDescriptor>, x: Resource, dsm: u32 -> Option<u64>, sink: SinkCall -> int,
                   g0: seq<LookupEntry>, r0: seq<GpioDescriptor>, n: u32)
    requires c.nGpios == n + |gs| && n + |gs| + 2 < U32_MODULUS
    requires IsGpioIo(x) ==> n + |gs| + 3 < U32_MODULUS && AnswersPins(dsm, n, |gs| + 1)
    requires AnswersPins(dsm, n, |gs|)
    requires c.gpios == g0 + ExpectedLookups(gs, dsm, n)
    requires c.regulators == r0 + ExpectedRegulators(gs, dsm, n)
    ensures var gs' := gs + (if IsGpioIo(x) then [x.gpio] else []);
            && Step(c, x, dsm, sink).ctx.gpios == g0 + ExpectedLookups(gs', dsm, n)
            && Step(c, x, dsm, sink).ctx.regulators == r0 + ExpectedRegulators(gs', dsm, n)
  {
    if IsGpioIo(x) {
      StepAt(c, x, dsm, sink, n, |gs|);
      ExpectedSnoc(gs, x.gpio, dsm, n);
    } else {
      assert gs + [] == gs;
    }
  }

  /** When the firmware answers the selectors the pins ask, the lookup table
      gains exactly the reset and indicator-LED pins and the regulator list
      exactly the regulator pins, each in firmware order. */
  lemma {:induction false} WalkTables(ctx: Context, rs: seq<Resource>, dsm: u32 -> Option<u64>, sink: SinkCall -> int)
    requires AnswersPins(dsm, ctx.nGpios, GpioCount(rs)) && NoWrap(ctx, rs)
    ensures Walk(ctx, rs, dsm, sink).ctx.gpios == ctx.gpios + ExpectedLookups(GpioPins(rs), dsm, ctx.nGpios)
    ensures Walk(ctx, rs, dsm, sink).ctx.regulators == ctx.regulators + ExpectedRegulators(GpioPins(rs), dsm, ctx.nGpios)
    decreases |rs|
  {
    if |rs| > 0 {
      var init := rs[..|rs| - 1];
      WalkTables(ctx, init, dsm, sink);
      WalkCountsPins(ctx, init, dsm, sink);
      WalkUnfold(ctx, rs, dsm, sink);
      TablesStep(Walk(ctx, init, dsm, sink).ctx, GpioPins(init), rs[|rs| - 1], dsm, sink,
                 ctx.gpios, ctx.regulators, ctx.nGpios);
    }
  }

  /** The j-th return code of the walk is the callback's code on the context
      the walk reached before entry j: positive EINVAL for a skipped entry,
      -ENODEV for a GPIO/IO entry whose _DSM query went unanswered. */
  lemma WalkRetAt(ctx: Context, rs: seq<Resource>, dsm: u32 -> Option<u64>, sink: SinkCall -> int, j: nat)
    requires j < |rs|
    ensures var c := Walk(ctx, rs[..j], dsm, sink).ctx;
            Walk(ctx, rs, dsm, sink).rets[j] == Step(c, rs[j], dsm, sink).ret
    ensures !IsGpioIo(rs[j]) ==> Walk(ctx, rs, dsm, sink).rets[j] == EINVAL
    ensures var c := Walk(ctx, rs[..j], dsm, sink).ctx;
            IsGpioIo(rs[j]) && dsm(Selector(c.nGpios)).None? ==> Walk(ctx, rs, dsm, sink).rets[j] == -ENODEV
  {
    var head := rs[..j + 1];
    assert head + rs[j + 1..] == rs;
    assert head[..j] == rs[..j];
    WalkAppend(ctx, head, rs[j + 1..], dsm, sink);
    WalkUnfold(ctx, head, dsm, sink);
    var w := Walk(ctx, rs[..j], dsm, sink);
    var hw := Walk(ctx, head, dsm, sink);
    assert |w.rets| == j;
    assert hw.rets == w.rets + [Step(w.ctx, rs[j], dsm, sink).ret];
    assert Walk(ctx, rs, dsm, sink).rets[j] == hw.rets[j];
  }

  /** The return code of one answered pin at position `i` of a walk that
      started at counter `n`. */
  lemma StepCodeAt(c: Context, x: Resource, dsm: u32 -> Option<u64>, sink: SinkCall -> int, n: u32, i: nat)
    requires IsGpioIo(x) && c.nGpios == n + i && n + i + 2 < U32_MODULUS && dsm(n + 2 + i).Some?
    ensures Step(c, x, dsm, sink).ret == PinCode(x.gpio, CategoryAt(dsm, n, i), sink)
  {
    assert Selector(c.nGpios) == n + 2 + i;
  }

  /** The return code of a GPIO/IO entry `x` that follows `pre`, when the
      firmware answers every selector up to the one `x` asks: it is what the
      pin's category calls for, the helper's code for a known type and
      positive EINVAL for an unknown one. What comes after `x` plays no part. */
  lemma WalkPinCodes(ctx: Context, pre: seq<Resource>, x: Resource, post: seq<Resource>, dsm: u32 -> Option<u64>, sink: SinkCall -> int)
    requires IsGpioIo(x)
    requires ctx.nGpios + GpioCount(pre) + 2 < U32_MODULUS
    requires AnswersPins(dsm, ctx.nGpios, GpioCount(pre) + 1)
    ensures Walk(ctx, pre + [x] + post, dsm, sink).rets[|pre|]
              == PinCode(x.gpio, CategoryAt(dsm, ctx.nGpios, GpioCount(pre)), sink)
  {
    var n, i := ctx.nGpios, GpioCount(pre);
    WalkAppend(ctx, pre + [x], post, dsm, sink);
    assert (pre + [x])[..|pre|] == pre;
    WalkUnfold(ctx, pre + [x], dsm, sink);
    WalkCountsPins(ctx, pre, dsm, sink);
    assert dsm(n + 2 + i).Some?;
    StepCodeAt(Walk(ctx, pre, dsm, sink).ctx, x, dsm, sink, n, i);
  }

  /** How the walk as written ends: with the callback's results, or with the
      fault of the callback as written. */
  datatype WalkOutcome = WalkDone(result: WalkResult) | WalkFaulted

  /** The callback as written folded over the list; a fault ends the walk. */
  function WalkAsWritten(ctx: Context, rs: seq<Resource>, dsm: u32 -> Option<u64>, sink: SinkCall -> int): (o: WalkOutcome)
    ensures o.WalkDone? ==> |o.result.rets| == |rs| && |o.result.queries| <= |rs|
    decreases |rs|
  {
    if |rs| == 0 then WalkDone(WalkResult(ctx, [], []))
    else
      match WalkAsWritten(ctx, rs[..|rs| - 1], dsm, sink)
      case WalkFaulted => WalkFaulted
      case WalkDone(w) =>
        match StepAsWritten(w.ctx, rs[|rs| - 1], dsm, sink)
        case NullDereference => WalkFaulted
        case Completed(s) => WalkDone(WalkResult(s.ctx, w.queries + QueryList(s.query), w.rets + [s.ret]))
  }

  /** The walk as written faults exactly when one of the corrected walk's
      _DSM queries went unanswered, and otherwise ends as the corrected walk
      does. */
  lemma {:induction false} WalkAsWrittenFaults(ctx: Context, rs: seq<Resource>, dsm: u32 -> Option<u64>,
                                               sink: SinkCall -> int)
    ensures var w := Walk(ctx, rs, dsm, sink);
            WalkAsWritten(ctx, rs, dsm, sink)
              == if CountAnswered(w.queries, dsm) == |w.queries| then WalkDone(w) else WalkFaulted
    decreases |rs|
  {
    if |rs| > 0 {
      var init, x := rs[..|rs| - 1], rs[|rs| - 1];
      WalkAsWrittenFaults(ctx, init, dsm, sink);
      var w := Walk(ctx, init, dsm, sink);
      var s := Step(w.ctx, x, dsm, sink);
      WalkUnfold(ctx, rs, dsm, sink);
      CountAnsweredAppend(w.queries, QueryList(s.query), dsm);
      AsWrittenAgreesWhenCompleted(w.ctx, x, dsm, sink);
      if s.query.Some? {
        assert QueryList(s.query)[..0] == [];
      }
    }
  }

  /** The iterative walk of the resource list, one callback per entry; what
      the lemmas above prove of `Walk` holds of its result. */
  method ParseCrs(ctx: Context, rs: seq<Resource>, dsm: u32 -> Option<u64>, sink: SinkCall -> int)
    returns (w: WalkResult)
    ensures w == Walk(ctx, rs, dsm, sink)
    ensures |w.rets| == |rs|
  {
    w := WalkResult(ctx, [], []);
    var i := 0;
    while i < |rs|
      invariant 0 <= i <= |rs|
      invariant w == Walk(ctx, rs[..i], dsm, sink)
    {
      var s := Step(w.ctx, rs[i], dsm, sink);
      assert rs[..i + 1][..i] == rs[..i];
      w := WalkResult(s.ctx, w.queries + QueryList(s.query), w.rets + [s.ret]);
      i := i + 1;
    }
    assert rs[..i] == rs;
  }
}
