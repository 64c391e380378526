/**
  The speed-up step: `speed_up_video` checks its input, divides the video
  timestamps by the speed, and splits the audio speed-up into a chain of
  `atempo` factors, each inside the 0.5 to 2.0 range the filter accepts,
  whose product is the requested speed.

  Speeds and factors are exact reals here; the ffmpeg run and the filter
  text are not part of this model.
 */
module Speed {
  import opened Wrappers

  datatype SpeedError =
    | InputMissing       // `FileNotFoundError`: the input file does not exist
    | NonPositiveSpeed   // `ValueError`: the speed is zero or negative

  /** What `speed_up_video` hands to ffmpeg: the `setpts` factor and the `atempo` chain. */
  datatype Filters = Filters(videoFactor: real, tempos: seq<real>)

  /** The range of factors one `atempo` filter accepts. */
  predicate InTempoRange(x: real) { 0.5 <= x <= 2.0 }

  /** How far a speed is from the accepted range, as the number of halvings or doublings it can still take. */
  function Distance(r: real): nat
    requires r > 0.0
  {
    if r > 2.0 then r.Floor else if r < 0.5 then (1.0 / r).Floor else 0
  }

  /** Halving a speed above 2 brings it closer to the range, and not below it. */
  lemma HalveCloser(r: real)
    requires r > 2.0
    ensures r / 2.0 > 1.0
    ensures Distance(r / 2.0) < Distance(r)
  {
    var h := r / 2.0;
    assert r == 2.0 * h;
    assert h.Floor as real <= h;
    assert r.Floor as real > r - 1.0;
  }

  /** Doubling a speed below 0.5 brings it closer to the range, and not above it. */
  lemma DoubleCloser(r: real)
    requires 0.0 < r < 0.5
    ensures r / 0.5 < 1.0
    ensures Distance(r / 0.5) < Distance(r)
  {
    var d := r / 0.5;
    assert d == 2.0 * r;
    var x := 1.0 / r;
    assert x > 2.0 by {
      assert x * r == 1.0;
    }
    if d >= 0.5 {
      assert Distance(d) == 0;
      assert x.Floor >= 2;
    } else {
      assert 1.0 / d == x / 2.0 by {
        assert (1.0 / d) * d == 1.0;
        assert (x / 2.0) * d == (x / 2.0) * (2.0 * r) == x * r;
      }
      assert (x / 2.0).Floor as real <= x / 2.0;
      assert x.Floor as real > x - 1.0;
    }
  }

  /**
    The `atempo` chain for a speed, read as the two loops produce it:
    a 2.0 while the remaining speed is above 2, a 0.5 while it is below
    0.5, and then the remaining speed itself.
   */
  function Chain(r: real): (c: seq<real>)
    requires r > 0.0
    ensures c != [] && c[|c| - 1] > 0.0
    decreases Distance(r)
  {
    if r > 2.0 then
      HalveCloser(r);
      [2.0] + Chain(r / 2.0)
    else if r < 0.5 then
      DoubleCloser(r);
      [0.5] + Chain(r / 0.5)
    else [r]
  }

  /** The product of the factors of a chain. */
  function Product(xs: seq<real>): real {
    if xs == [] then 1.0 else xs[0] * Product(xs[1..])
  }

  /** Every factor of the chain is one `atempo` accepts. */
  lemma {:induction false} ChainInRange(r: real)
    requires r > 0.0
    ensures forall i :: 0 <= i < |Chain(r)| ==> InTempoRange(Chain(r)[i])
    decreases Distance(r)
  {
    if r > 2.0 {
      HalveCloser(r);
      ChainInRange(r / 2.0);
    } else if r < 0.5 {
      DoubleCloser(r);
      ChainInRange(r / 0.5);
    }
  }

  /** The chain speeds the audio up by exactly the requested speed. */
  lemma {:induction false} ChainProduct(r: real)
    requires r > 0.0
    ensures Product(Chain(r)) == r
    decreases Distance(r)
  {
    if r > 2.0 {
      HalveCloser(r);
      ChainProduct(r / 2.0);
      assert ([2.0] + Chain(r / 2.0))[1..] == Chain(r / 2.0);
    } else if r < 0.5 {
      DoubleCloser(r);
      ChainProduct(r / 0.5);
      assert ([0.5] + Chain(r / 0.5))[1..] == Chain(r / 0.5);
    }
  }

  /**
    The chain is some 2.0s followed by a factor in (1, 2] when the speed
    is above 2, some 0.5s followed by a factor in [0.5, 1) when it is
    below 0.5, and the speed alone when it is already in range: never both
    kinds of fixed factor, always exactly one residual factor.
   */
  lemma {:induction false} ChainShape(r: real)
    requires r > 0.0
    ensures var c := Chain(r);
            && (r > 2.0 ==> (forall i :: 0 <= i < |c| - 1 ==> c[i] == 2.0) && 1.0 < c[|c| - 1] <= 2.0)
            && (r < 0.5 ==> (forall i :: 0 <= i < |c| - 1 ==> c[i] == 0.5) && 0.5 <= c[|c| - 1] < 1.0)
            && (InTempoRange(r) ==> c == [r])
    decreases Distance(r)
  {
    var c := Chain(r);
    if r > 2.0 {
      var h := r / 2.0;
      HalveCloser(r);
      ChainShape(h);
      assert c == [2.0] + Chain(h);
      forall i | 0 <= i < |c| - 1 ensures c[i] == 2.0 {
        if i > 0 { assert c[i] == Chain(h)[i - 1]; }
      }
    } else if r < 0.5 {
      var d := r / 0.5;
      DoubleCloser(r);
      ChainShape(d);
      assert c == [0.5] + Chain(d);
      forall i | 0 <= i < |c| - 1 ensures c[i] == 0.5 {
        if i > 0 { assert c[i] == Chain(d)[i - 1]; }
      }
    }
  }

  /**
    The checks and filters of `speed_up_video`: a missing input file is
    reported first, then a speed that is not positive; otherwise the video
    timestamps are scaled by `1 / speed` and the audio by the chain of
    `atempo` factors the two loops build.
   */
  method SpeedUpFilters(inputExists: bool, speed: real) returns (r: Result<Filters, SpeedError>)
    ensures !inputExists ==> r == Err(InputMissing)
    ensures inputExists && speed <= 0.0 ==> r == Err(NonPositiveSpeed)
    ensures inputExists && speed > 0.0 ==>
              && r.Ok?
              && r.value.videoFactor * speed == 1.0
              && r.value.tempos == Chain(speed)
  {
    if !inputExists {
      return Err(InputMissing);
    }
    if speed <= 0.0 {
      return Err(NonPositiveSpeed);
    }
    var videoFactor := 1.0 / speed;
    assert videoFactor * speed == 1.0;
    var tempos := AtempoChain(speed);
    r := Ok(Filters(videoFactor, tempos));
  }

  /** The two loops of `speed_up_video` that build the `atempo` chain. */
  method AtempoChain(speed: real) returns (tempos: seq<real>)
    requires speed > 0.0
    ensures tempos == Chain(speed)
  {
    var halves, remaining := HalveAbove(speed);
    var doubles, residual := DoubleBelow(remaining);
    assert Chain(residual) == [residual];
    tempos := halves + doubles + [residual];
  }

  /** The first loop: a 2.0 for each halving while the remaining speed is above 2. */
  method HalveAbove(speed: real) returns (tempos: seq<real>, remaining: real)
    requires speed > 0.0
    ensures 0.0 < remaining <= 2.0
    ensures tempos + Chain(remaining) == Chain(speed)
  {
    tempos := [];
    remaining := speed;
    while remaining > 2.0
      invariant remaining > 0.0
      invariant tempos + Chain(remaining) == Chain(speed)
      decreases Distance(remaining)
    {
      HalveCloser(remaining);
      assert Chain(remaining) == [2.0] + Chain(remaining / 2.0);
      tempos := tempos + [2.0];
      remaining := remaining / 2.0;
    }
  }

  /** The second loop: a 0.5 for each doubling while the remaining speed is below 0.5. */
  method DoubleBelow(speed: real) returns (tempos: seq<real>, remaining: real)
    requires 0.0 < speed <= 2.0
    ensures InTempoRange(remaining)
    ensures tempos + Chain(remaining) == Chain(speed)
  {
    tempos := [];
    remaining := speed;
    while remaining < 0.5
      invariant 0.0 < remaining <= 2.0
      invariant tempos + Chain(remaining) == Chain(speed)
      decreases Distance(remaining)
    {
      ghost var before := Distance(remaining);
      DoubleCloser(remaining);
      assert Chain(remaining) == [0.5] + Chain(remaining / 0.5);
      tempos := tempos + [0.5];
      remaining := remaining / 0.5;
      assert Distance(remaining) < before;
    }
  }
}
