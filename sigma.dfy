/** Kernel bandwidth specifications and their validation (`validate_sigma`). */
module Sigma {
  import opened Errors
  import opened Matrices

  /** A computed bandwidth: one value for every column, one value per column, or the
      NaN that `np.median` returns for an empty distance matrix. */
  datatype Bandwidth = Scalar(v: real) | PerColumn(vs: seq<real>) | Undefined

  /** What a caller may pass as `sigma`: a name, a callable from the distance matrix
      to a bandwidth, or a pre-computed number (int or float). */
  datatype SigmaSpec =
    | Named(name: string)
    | Func(f: Matrix -> Bandwidth)
    | Number(value: real)

  /** The names the library knows (`VALID_SIGMAS`). */
  const KnownNames: seq<string> := ["minmax", "median", "std", "knn"]

  /** `validate_sigma`: accept a known name, any callable and any number; refuse the rest. */
  function ValidateSigma(s: SigmaSpec): (r: Result<()>)
    ensures r.Ok? <==>
      (s.Named? ==> s.name == "minmax" || s.name == "median" || s.name == "std" || s.name == "knn")
    ensures r.Err? ==> r.error == InvalidSigma
  {
    match s
    case Named(n) => if n in KnownNames then Ok(()) else Err(InvalidSigma)
    case Func(_) => Ok(())
    case Number(_) => Ok(())
  }

  /** The type annotation of `sigma` spells one name "minimax"; that spelling is refused,
      and only "minmax" is accepted. */
  lemma MinimaxRejected()
    ensures ValidateSigma(Named("minimax")) == Err(InvalidSigma)
    ensures ValidateSigma(Named("minmax")) == Ok(())
  {
    assert "minimax" != "minmax";
    assert "minimax" != "median" && "minimax" != "std" && "minimax" != "knn";
  }
}
