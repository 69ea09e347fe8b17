/** The start-up validation chain of the benchmark (`setup` in hybridMPI.c).

    The five positional parameters arrive already converted to integers; the
    number of processes `proc` is what the message-passing runtime reports,
    so it is at least one. */
module Settings {
  import opened CArith

  /** The validated run parameters: grid side, energy per source and
      iteration, iteration count, and the process grid's width and height. */
  datatype Params = Params(n: int, energy: int, niters: int, px: int, py: int)

  /** `Usage`: too few arguments, the run ends cleanly with nothing done.
      `Abort(code)`: the whole run is aborted with that error code.
      `Ok(p)`: the run goes ahead with `p`. */
  datatype SetupResult = Usage | Abort(code: int) | Ok(params: Params)

  /** `setup` as the program has it: the argument count is checked first,
      then the three configuration checks in order, the first that fails
      deciding the abort code. */
  function Setup(argc: int, proc: int, n: int, energy: int, niters: int, px: int, py: int): (r: SetupResult)
    requires proc >= 1
    ensures r == Usage <==> argc < 6
    ensures r == Abort(1) <==> argc >= 6 && px * py != proc
    ensures r == Abort(2) <==> argc >= 6 && px * py == proc && n % px != 0
    ensures r == Abort(3) <==> argc >= 6 && px * py == proc && n % px == 0 && n % py != 0
    ensures r.Ok? <==> argc >= 6 && px * py == proc && n % px == 0 && n % py == 0
    ensures r.Ok? ==> r.params == Params(n, energy, niters, px, py)
  {
    if argc < 6 then Usage
    else if px * py != proc then Abort(1)
    else
      // one process at least, so neither factor is zero and the
      // remainders below are defined
      assert px != 0 && py != 0;
      RemZeroIffDivides(n, px);
      RemZeroIffDivides(n, py);
      if Rem(n, px) != 0 then Abort(2)
      else if Rem(n, py) != 0 then Abort(3)
      else Ok(Params(n, energy, niters, px, py))
  }

  /** The parameters the rest of the program needs: a positive grid side
      split evenly by a process grid of positive width and height whose
      size is the number of processes. */
  predicate WellFormed(p: Params, proc: int)
  {
    && p.n >= 1 && p.px >= 1 && p.py >= 1
    && p.px * p.py == proc
    && p.n % p.px == 0 && p.n % p.py == 0
  }

  /** What `setup` lets through: with one process, a 1 x 1 process grid
      written as px = py = -1 passes every check, and C's `n / px` then gives
      a negative block width. */
  lemma SetupAcceptsNegativeProcessGrid()
    ensures Setup(6, 1, 4, 1, 1, -1, -1) == Ok(Params(4, 1, 1, -1, -1))
    ensures Quot(4, -1) == -4
    ensures !WellFormed(Params(4, 1, 1, -1, -1), 1)
  {
  }

  /** What `setup` also lets through: an empty grid (n = 0). */
  lemma SetupAcceptsEmptyGrid()
    ensures Setup(6, 1, 0, 1, 1, 1, 1) == Ok(Params(0, 1, 1, 1, 1))
    ensures !WellFormed(Params(0, 1, 1, 1, 1), 1)
  {
  }

  /** `setup` with the positivity check the parameters' meaning calls for:
      after the three checks of the program, a grid side or process-grid
      dimension below one aborts with code 4. */
  function SetupChecked(argc: int, proc: int, n: int, energy: int, niters: int, px: int, py: int): (r: SetupResult)
    requires proc >= 1
    ensures r == Usage <==> argc < 6
    ensures r.Abort? ==> 1 <= r.code <= 4
    ensures r.Ok? <==> argc >= 6 && WellFormed(Params(n, energy, niters, px, py), proc)
    ensures r.Ok? ==> r.params == Params(n, energy, niters, px, py) && WellFormed(r.params, proc)
    ensures r.Ok? ==> Setup(argc, proc, n, energy, niters, px, py) == r
    ensures r.Abort? && r.code != 4 ==> Setup(argc, proc, n, energy, niters, px, py) == r
  {
    var r := Setup(argc, proc, n, energy, niters, px, py);
    if r.Ok? && (n < 1 || px < 1 || py < 1) then Abort(4) else r
  }
}
