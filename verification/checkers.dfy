/** The range guards and `dir_add_slash` of src/rtb_argparse/checkers.py,
    over integers. Each guard returns its value unchanged or raises.

    Two guards do not do what their docstrings promise: `check_strictly_superior`
    also accepts `value == ref`, and `check_strictly_inferior` accepts exactly
    the values its docstring rejects. Both are modelled as written, with a
    corrected version beside each.
 */
module Checkers {
  import opened Results

  /** The ArgumentTypeError each guard raises, with the values it names. */
  datatype CheckError =
    | NotSuperior(value: int, ref: int)
    | NotInferior(value: int, ref: int)
    | NotStrictlySuperior(value: int, ref: int)
    | NotStrictlyInferior(value: int, ref: int)
    | NotBetween(value: int, inferior: int, superior: int)
    | NotStrictlyBetween(value: int, inferior: int, superior: int)
    /** `path[-1]` on the empty string (IndexError). */
    | EmptyPath

  /** `check_superior`: value >= ref. */
  function CheckSuperior(value: int, ref: int): (r: Result<int, CheckError>)
    ensures r.Success? <==> value >= ref
    ensures r.Success? ==> r.value == value
    ensures r.Failure? ==> r.error == NotSuperior(value, ref)
  {
    if value < ref then Failure(NotSuperior(value, ref)) else Success(value)
  }

  /** `check_inferior`: value <= ref. */
  function CheckInferior(value: int, ref: int): (r: Result<int, CheckError>)
    ensures r.Success? <==> value <= ref
    ensures r.Success? ==> r.value == value
    ensures r.Failure? ==> r.error == NotInferior(value, ref)
  {
    if value > ref then Failure(NotInferior(value, ref)) else Success(value)
  }

  /** `check_strictly_superior` as written: it rejects only values below
      `ref`, so it accepts exactly what `check_superior` accepts. */
  function CheckStrictlySuperior(value: int, ref: int): (r: Result<int, CheckError>)
    ensures r.Success? <==> value >= ref
    ensures r.Success? ==> r.value == value
    ensures r.Failure? ==> r.error == NotStrictlySuperior(value, ref)
  {
    if value < ref then Failure(NotStrictlySuperior(value, ref)) else Success(value)
  }

  /** The guard its docstring describes: value > ref. */
  function CheckStrictlySuperiorIntended(value: int, ref: int): (r: Result<int, CheckError>)
    ensures r.Success? <==> value > ref
    ensures r.Success? ==> r.value == value
    ensures r.Failure? ==> r.error == NotStrictlySuperior(value, ref)
  {
    if value <= ref then Failure(NotStrictlySuperior(value, ref)) else Success(value)
  }

  /** `check_strictly_inferior` as written: it rejects values below `ref`,
      the opposite of its docstring. */
  function CheckStrictlyInferior(value: int, ref: int): (r: Result<int, CheckError>)
    ensures r.Success? <==> value >= ref
    ensures r.Success? ==> r.value == value
    ensures r.Failure? ==> r.error == NotStrictlyInferior(value, ref)
  {
    if value < ref then Failure(NotStrictlyInferior(value, ref)) else Success(value)
  }

  /** The guard its docstring describes: value < ref. */
  function CheckStrictlyInferiorIntended(value: int, ref: int): (r: Result<int, CheckError>)
    ensures r.Success? <==> value < ref
    ensures r.Success? ==> r.value == value
    ensures r.Failure? ==> r.error == NotStrictlyInferior(value, ref)
  {
    if value >= ref then Failure(NotStrictlyInferior(value, ref)) else Success(value)
  }

  /** The as-written strict guards differ from their docstrings: equal values
      pass `check_strictly_superior`, and `check_strictly_inferior` rejects a
      smaller value while passing a larger one. */
  lemma StrictGuardsMisbehave()
    ensures CheckStrictlySuperior(3, 3).Success? && CheckStrictlySuperiorIntended(3, 3).Failure?
    ensures CheckStrictlyInferior(1, 2).Failure? && CheckStrictlyInferiorIntended(1, 2).Success?
    ensures CheckStrictlyInferior(3, 2).Success? && CheckStrictlyInferiorIntended(3, 2).Failure?
  {
  }

  /** The as-written strict guards, over all inputs: the superior one is the
      non-strict guard, and the inferior one accepts the complement of what
      its intended version accepts. */
  lemma StrictGuardsAsWritten(value: int, ref: int)
    ensures CheckStrictlySuperior(value, ref).Success? == CheckSuperior(value, ref).Success?
    ensures CheckStrictlyInferior(value, ref).Success? == !CheckStrictlyInferiorIntended(value, ref).Success?
  {
  }

  /** `check_between`: inferior <= value <= superior. */
  function CheckBetween(value: int, inferior: int, superior: int): (r: Result<int, CheckError>)
    ensures r.Success? <==> inferior <= value <= superior
    ensures r.Success? ==> r.value == value
    ensures r.Failure? ==> r.error == NotBetween(value, inferior, superior)
  {
    if value < inferior || value > superior then Failure(NotBetween(value, inferior, superior))
    else Success(value)
  }

  /** `check_strictly_between`: inferior < value < superior. */
  function CheckStrictlyBetween(value: int, inferior: int, superior: int): (r: Result<int, CheckError>)
    ensures r.Success? <==> inferior < value < superior
    ensures r.Success? ==> r.value == value
    ensures r.Failure? ==> r.error == NotStrictlyBetween(value, inferior, superior)
  {
    if value <= inferior || value >= superior then Failure(NotStrictlyBetween(value, inferior, superior))
    else Success(value)
  }

  /** `check_between` accepts exactly what passes both one-sided guards. */
  lemma BetweenIsBothBounds(value: int, inferior: int, superior: int)
    ensures CheckBetween(value, inferior, superior).Success? <==>
      CheckSuperior(value, inferior).Success? && CheckInferior(value, superior).Success?
  {
  }

  /** `check_strictly_between` accepts exactly what passes both corrected
      strict guards. */
  lemma StrictlyBetweenIsBothBounds(value: int, inferior: int, superior: int)
    ensures CheckStrictlyBetween(value, inferior, superior).Success? <==>
      CheckStrictlySuperiorIntended(value, inferior).Success? && CheckStrictlyInferiorIntended(value, superior).Success?
  {
  }

  /** `dir_add_slash`: the path with a trailing `/`, added only when missing.
      The empty path fails. */
  function DirAddSlash(path: string): (r: Result<string, CheckError>)
    ensures r.Failure? <==> path == []
    ensures r.Success? ==> |r.value| > 0 && r.value[|r.value| - 1] == '/'
    ensures r.Success? && path[|path| - 1] == '/' ==> r.value == path
    ensures r.Success? && path[|path| - 1] != '/' ==> r.value == path + "/"
  {
    if path == [] then Failure(EmptyPath)
    else if path[|path| - 1] != '/' then Success(path + "/")
    else Success(path)
  }

  /** Adding the slash twice is adding it once. */
  lemma DirAddSlashIdempotent(path: string)
    requires DirAddSlash(path).Success?
    ensures DirAddSlash(DirAddSlash(path).value) == DirAddSlash(path)
  {
  }
}
