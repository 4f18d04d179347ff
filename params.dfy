/** Argument validation of the gateway: output and input counts, the fields
    of the covariance-function structure and the kernel tag, checked in the
    order the gateway checks them; the first failing check decides the
    error. */
module Params {

  /** A host array as the gateway reads it: its two dimensions, whether it is
      a character array, its real data in column-major order and, for a
      character array, its text. */
  datatype MxArray = MxArray(rows: nat, cols: nat, isChar: bool, data: seq<real>, text: string)

  /** The host guarantees that an array holds rows * cols elements. */
  predicate WellFormed(a: MxArray)
  {
    |a.data| == a.rows * a.cols
  }

  /** The fields of the covariance-function structure by name; a missing
      field (or an argument that is not a structure at all) is an absent key. */
  type Struct = map<string, MxArray>

  predicate StructWellFormed(s: Struct)
  {
    forall f :: f in s ==> WellFormed(s[f])
  }

  datatype Option<T> = None | Some(value: T)

  /** The eight covariance functions the gateway evaluates. */
  datatype Kernel = SqExp | Exponential | Matern32 | Matern52 | PPCS0 | PPCS1 | PPCS2 | PPCS3

  /** The piecewise-polynomial kernels have compact support and return a
      sparse matrix; the other four return a dense one. */
  predicate CompactSupport(k: Kernel)
  {
    k.PPCS0? || k.PPCS1? || k.PPCS2? || k.PPCS3?
  }

  /** The `gpcf.type` string that selects each kernel. */
  function TagName(k: Kernel): string
  {
    match k
    case SqExp => "gpcf_sexp"
    case Exponential => "gpcf_exp"
    case Matern32 => "gpcf_matern32"
    case Matern52 => "gpcf_matern52"
    case PPCS0 => "gpcf_ppcs0"
    case PPCS1 => "gpcf_ppcs1"
    case PPCS2 => "gpcf_ppcs2"
    case PPCS3 => "gpcf_ppcs3"
  }

  /** The chain of string comparisons on `gpcf.type`: it recognises exactly
      the eight tag names. */
  function ParseTag(s: string): (r: Option<Kernel>)
    ensures r.Some? ==> TagName(r.value) == s
    ensures forall k :: TagName(k) == s ==> r == Some(k)
  {
    if s == "gpcf_sexp" then Some(SqExp)
    else if s == "gpcf_exp" then Some(Exponential)
    else if s == "gpcf_matern32" then Some(Matern32)
    else if s == "gpcf_matern52" then Some(Matern52)
    else if s == "gpcf_ppcs0" then Some(PPCS0)
    else if s == "gpcf_ppcs1" then Some(PPCS1)
    else if s == "gpcf_ppcs2" then Some(PPCS2)
    else if s == "gpcf_ppcs3" then Some(PPCS3)
    else None
  }

  /** One error per message the gateway can raise. */
  datatype Error =
    | WrongOutputs
    | WrongInputs
    | NoMagnSigma2
    | MagnSigma2NotScalar
    | NoLengthScale
    | LengthScaleNotVector
    | LengthScaleWrongLength
    | NoType
    | TypeNotString
    | UndefinedType
    | NoL
    | LNotScalar

  function Message(e: Error): string
  {
    match e
    case WrongOutputs => "Wrong number of output arguments."
    case WrongInputs => "Wrong number of input arguments."
    case NoMagnSigma2 => "Could not get gpcf.magnSigma2"
    case MagnSigma2NotScalar => "gpcf.magnSigma2 must be a scalar."
    case NoLengthScale => "Could not get gpcf.lengthScale"
    case LengthScaleNotVector => "gpcf.lengthScale must be a scalar or a vector."
    case LengthScaleWrongLength =>
      "gpcf.lengthScale must be scalar or its lenght must same as number of columns in X."
    case NoType => "Could not get gpcf.type"
    case TypeNotString => "gpcf.type must be a string."
    case UndefinedType => "Undefined type of covariance function."
    case NoL => "Could not get gpcf.l"
    case LNotScalar => "gpcf.l must be a scalar."
  }

  datatype Result<T> = Ok(value: T) | Fail(error: Error)

  /** What the kernels read once the arguments are accepted: the m-by-n
      inputs, the magnitude, the length scales, the kernel and, for the
      compact-support kernels, `gpcf.l` (0 for the others). */
  datatype Inputs = Inputs(m: nat, n: nat, x: seq<real>, ms: real, l: seq<real>, kernel: Kernel, order: real)

  predicate IsScalar(a: MxArray)
  {
    a.rows == 1 && a.cols == 1
  }

  /** The shape test on `gpcf.lengthScale`: one of its dimensions is 1. */
  predicate IsVector(a: MxArray)
  {
    a.rows == 1 || a.cols == 1
  }

  /** `lr = max(dims[0], dims[1])`. */
  function Longest(a: MxArray): nat
  {
    if a.rows > a.cols then a.rows else a.cols
  }

  /** The value of a 1-by-1 array. */
  function Scalar(a: MxArray): real
    requires WellFormed(a) && IsScalar(a)
  {
    a.data[0]
  }

  /** The gateway's checks in their order. With `rejectEmpty` false this is
      the code as written; with it true the vector test also refuses an
      empty length-scale array when X has a column (with no column there is
      no length scale to read, and the empty array is accepted). */
  function Check(rejectEmpty: bool, nlhs: int, nrhs: int, gpcf: Struct, X: MxArray): Result<Inputs>
    requires WellFormed(X) && StructWellFormed(gpcf)
  {
    if nlhs != 1 && nlhs != 3 then Fail(WrongOutputs)
    else if nrhs != 2 then Fail(WrongInputs)
    else if "magnSigma2" !in gpcf then Fail(NoMagnSigma2)
    else if !IsScalar(gpcf["magnSigma2"]) then Fail(MagnSigma2NotScalar)
    else if "lengthScale" !in gpcf then Fail(NoLengthScale)
    else if !IsVector(gpcf["lengthScale"]) || (rejectEmpty && |gpcf["lengthScale"].data| == 0 && X.cols != 0) then
      Fail(LengthScaleNotVector)
    else if Longest(gpcf["lengthScale"]) != 1 && Longest(gpcf["lengthScale"]) != X.cols then
      Fail(LengthScaleWrongLength)
    else if "type" !in gpcf then Fail(NoType)
    else if !gpcf["type"].isChar then Fail(TypeNotString)
    else
      match ParseTag(gpcf["type"].text)
      case None => Fail(UndefinedType)
      case Some(k) =>
        var p := Inputs(X.rows, X.cols, X.data, Scalar(gpcf["magnSigma2"]), gpcf["lengthScale"].data, k, 0.0);
        if !CompactSupport(k) then Ok(p)
        else if "l" !in gpcf then Fail(NoL)
        else if !IsScalar(gpcf["l"]) then Fail(LNotScalar)
        else Ok(p.(order := Scalar(gpcf["l"])))
  }

  /** The condition under which each check fails, read on its own. */
  predicate Violates(rejectEmpty: bool, e: Error, nlhs: int, nrhs: int, gpcf: Struct, X: MxArray)
  {
    match e
    case WrongOutputs => nlhs != 1 && nlhs != 3
    case WrongInputs => nrhs != 2
    case NoMagnSigma2 => "magnSigma2" !in gpcf
    case MagnSigma2NotScalar => "magnSigma2" in gpcf && !IsScalar(gpcf["magnSigma2"])
    case NoLengthScale => "lengthScale" !in gpcf
    case LengthScaleNotVector =>
      "lengthScale" in gpcf
      && (!IsVector(gpcf["lengthScale"]) || (rejectEmpty && |gpcf["lengthScale"].data| == 0 && X.cols != 0))
    case LengthScaleWrongLength =>
      "lengthScale" in gpcf && Longest(gpcf["lengthScale"]) != 1 && Longest(gpcf["lengthScale"]) != X.cols
    case NoType => "type" !in gpcf
    case TypeNotString => "type" in gpcf && !gpcf["type"].isChar
    case UndefinedType => "type" in gpcf && ParseTag(gpcf["type"].text).None?
    case NoL =>
      "type" in gpcf && ParseTag(gpcf["type"].text).Some? && CompactSupport(ParseTag(gpcf["type"].text).value)
      && "l" !in gpcf
    case LNotScalar =>
      "type" in gpcf && ParseTag(gpcf["type"].text).Some? && CompactSupport(ParseTag(gpcf["type"].text).value)
      && "l" in gpcf && !IsScalar(gpcf["l"])
  }

  /** Position of each check in the gateway. */
  function Rank(e: Error): nat
  {
    match e
    case WrongOutputs => 0
    case WrongInputs => 1
    case NoMagnSigma2 => 2
    case MagnSigma2NotScalar => 3
    case NoLengthScale => 4
    case LengthScaleNotVector => 5
    case LengthScaleWrongLength => 6
    case NoType => 7
    case TypeNotString => 8
    case UndefinedType => 9
    case NoL => 10
    case LNotScalar => 11
  }

  /** The checks are tried in order: the arguments are refused exactly when
      some check fails, and the error reported is the earliest failing one. */
  lemma FirstFailure(rejectEmpty: bool, nlhs: int, nrhs: int, gpcf: Struct, X: MxArray, e: Error)
    requires WellFormed(X) && StructWellFormed(gpcf)
    ensures Check(rejectEmpty, nlhs, nrhs, gpcf, X).Fail?
        <==> exists e' :: Violates(rejectEmpty, e', nlhs, nrhs, gpcf, X)
    ensures Check(rejectEmpty, nlhs, nrhs, gpcf, X) == Fail(e)
        <==> Violates(rejectEmpty, e, nlhs, nrhs, gpcf, X)
             && forall e' :: Rank(e') < Rank(e) ==> !Violates(rejectEmpty, e', nlhs, nrhs, gpcf, X)
  {
    var r := Check(rejectEmpty, nlhs, nrhs, gpcf, X);
    if r.Fail? {
      assert Violates(rejectEmpty, r.error, nlhs, nrhs, gpcf, X);
    }
  }

  /** What accepted arguments give the kernels: the input matrix and its
      shape, the magnitude, the length-scale data of length 1 or n (or, as
      written, possibly empty when n is not 0), the kernel the tag names and `gpcf.l` for the
      compact-support kernels. */
  predicate Accepted(rejectEmpty: bool, p: Inputs, gpcf: Struct, X: MxArray)
    requires WellFormed(X) && StructWellFormed(gpcf)
  {
    && p.m == X.rows && p.n == X.cols && p.x == X.data
    && "magnSigma2" in gpcf && IsScalar(gpcf["magnSigma2"]) && p.ms == Scalar(gpcf["magnSigma2"])
    && "lengthScale" in gpcf && p.l == gpcf["lengthScale"].data
    && (rejectEmpty ==> |p.l| >= 1 || p.n == 0) && (|p.l| <= 1 || |p.l| == p.n)
    && "type" in gpcf && gpcf["type"].isChar && TagName(p.kernel) == gpcf["type"].text
    && (CompactSupport(p.kernel) ==> "l" in gpcf && IsScalar(gpcf["l"]) && p.order == Scalar(gpcf["l"]))
    && (!CompactSupport(p.kernel) ==> p.order == 0.0)
  }

  /** Length-scale data that passes the vector test has `lr` elements, or
      none at all when the other dimension is 0. */
  lemma VectorLength(a: MxArray)
    requires WellFormed(a) && IsVector(a)
    ensures |a.data| == Longest(a) || |a.data| == 0
  {
  }

  /** Validation as written: what it accepts is described by `Accepted`,
      with the length-scale data possibly empty. */
  function ValidateAsWritten(nlhs: int, nrhs: int, gpcf: Struct, X: MxArray): (r: Result<Inputs>)
    requires WellFormed(X) && StructWellFormed(gpcf)
    ensures r.Ok? ==> Accepted(false, r.value, gpcf, X)
    ensures r.Ok? <==> forall e :: !Violates(false, e, nlhs, nrhs, gpcf, X)
  {
    var r := Check(false, nlhs, nrhs, gpcf, X);
    FirstFailure(false, nlhs, nrhs, gpcf, X, WrongOutputs);
    if r.Ok? then VectorLength(gpcf["lengthScale"]); r else r
  }

  /** A 1-by-0 length scale passes both shape tests (`lr` is 1), so the
      kernels are handed an empty length-scale array while the inputs have a
      column: the length-scale read `l[0]` is out of bounds. */
  lemma EmptyLengthScaleAccepted()
    ensures var gpcf := map["magnSigma2" := MxArray(1, 1, false, [1.0], ""),
                            "lengthScale" := MxArray(1, 0, false, [], ""),
                            "type" := MxArray(1, 9, true, [0.0, 0.0, 0.0, 0.0, 0.0, 0.0, 0.0, 0.0, 0.0], "gpcf_sexp")];
            var X := MxArray(1, 1, false, [0.0], "");
            && ValidateAsWritten(1, 2, gpcf, X).Ok?
            && ValidateAsWritten(1, 2, gpcf, X).value.n == 1
            && ValidateAsWritten(1, 2, gpcf, X).value.l == []
  {
    var gpcf := map["magnSigma2" := MxArray(1, 1, false, [1.0], ""),
                    "lengthScale" := MxArray(1, 0, false, [], ""),
                    "type" := MxArray(1, 9, true, [0.0, 0.0, 0.0, 0.0, 0.0, 0.0, 0.0, 0.0, 0.0], "gpcf_sexp")];
    assert StructWellFormed(gpcf);
    assert ParseTag("gpcf_sexp") == Some(SqExp);
  }

  /** Validation with the empty length scale refused when X has a column:
      every accepted argument list has a scalar or one length scale per
      input column. */
  function Validate(nlhs: int, nrhs: int, gpcf: Struct, X: MxArray): (r: Result<Inputs>)
    requires WellFormed(X) && StructWellFormed(gpcf)
    ensures r.Ok? ==> Accepted(true, r.value, gpcf, X)
    ensures r.Ok? ==> |r.value.l| == 1 || |r.value.l| == r.value.n
    ensures r.Ok? <==> forall e :: !Violates(true, e, nlhs, nrhs, gpcf, X)
    ensures r.Fail? ==> Violates(true, r.error, nlhs, nrhs, gpcf, X)
  {
    var r := Check(true, nlhs, nrhs, gpcf, X);
    FirstFailure(true, nlhs, nrhs, gpcf, X, WrongOutputs);
    if r.Ok? then VectorLength(gpcf["lengthScale"]); r
    else FirstFailure(true, nlhs, nrhs, gpcf, X, r.error); r
  }

  /** The corrected validation refuses the 1-by-0 length scale of
      `EmptyLengthScaleAccepted`, whose input has a column. */
  lemma EmptyLengthScaleRefused()
    ensures var gpcf := map["magnSigma2" := MxArray(1, 1, false, [1.0], ""),
                            "lengthScale" := MxArray(1, 0, false, [], ""),
                            "type" := MxArray(1, 9, true, [0.0, 0.0, 0.0, 0.0, 0.0, 0.0, 0.0, 0.0, 0.0], "gpcf_sexp")];
            var X := MxArray(1, 1, false, [0.0], "");
            Validate(1, 2, gpcf, X) == Fail(LengthScaleNotVector)
  {
    var gpcf := map["magnSigma2" := MxArray(1, 1, false, [1.0], ""),
                    "lengthScale" := MxArray(1, 0, false, [], ""),
                    "type" := MxArray(1, 9, true, [0.0, 0.0, 0.0, 0.0, 0.0, 0.0, 0.0, 0.0, 0.0], "gpcf_sexp")];
    assert StructWellFormed(gpcf);
  }

  /** The corrected check comes before the type test, so on an empty length
      scale with an input column it replaces the error the code as written
      reports for a missing `type` field. */
  lemma EmptyLengthScaleBeforeType()
    ensures var gpcf := map["magnSigma2" := MxArray(1, 1, false, [1.0], ""),
                            "lengthScale" := MxArray(1, 0, false, [], "")];
            var X := MxArray(1, 1, false, [0.0], "");
            && ValidateAsWritten(1, 2, gpcf, X) == Fail(NoType)
            && Validate(1, 2, gpcf, X) == Fail(LengthScaleNotVector)
  {
    var gpcf := map["magnSigma2" := MxArray(1, 1, false, [1.0], ""),
                    "lengthScale" := MxArray(1, 0, false, [], "")];
    assert StructWellFormed(gpcf);
  }

  /** With no input column the per-dimension loops never read a length
      scale, so an empty one is accepted, as the code as written does. */
  lemma NoColumnsAccepted()
    ensures var gpcf := map["magnSigma2" := MxArray(1, 1, false, [1.0], ""),
                            "lengthScale" := MxArray(1, 0, false, [], ""),
                            "type" := MxArray(1, 9, true, [0.0, 0.0, 0.0, 0.0, 0.0, 0.0, 0.0, 0.0, 0.0], "gpcf_sexp")];
            var X := MxArray(2, 0, false, [], "");
            && Validate(1, 2, gpcf, X).Ok?
            && Validate(1, 2, gpcf, X) == ValidateAsWritten(1, 2, gpcf, X)
            && Validate(1, 2, gpcf, X).value.n == 0
            && Validate(1, 2, gpcf, X).value.l == []
  {
    var gpcf := map["magnSigma2" := MxArray(1, 1, false, [1.0], ""),
                    "lengthScale" := MxArray(1, 0, false, [], ""),
                    "type" := MxArray(1, 9, true, [0.0, 0.0, 0.0, 0.0, 0.0, 0.0, 0.0, 0.0, 0.0], "gpcf_sexp")];
    assert StructWellFormed(gpcf);
    assert ParseTag("gpcf_sexp") == Some(SqExp);
  }
}
