/**
 * The dtype helpers of the Paddle backend (`ivy/functional/backends/paddle/data_type.py`):
 * the two constant tables between Paddle dtypes and ivy's dtype names, the conversions
 * `as_ivy_dtype` and `as_native_dtype`, `dtype`, `dtype_bits` and the dispatch of `astype`.
 */
module PaddleDtypes {
  import opened Common
  import opened PyStr

  /** The Paddle dtypes the backend meets. `bfloat16` exists in Paddle but is in neither table. */
  datatype PaddleDtype =
    | Int8 | Int16 | Int32 | Int64 | UInt8
    | Float16 | Float32 | Float64
    | Complex64 | Complex128
    | Bool
    | BFloat16

  /** `ivy_dtype_dict`: Paddle dtype to ivy dtype name. */
  const IvyDtypeDict: map<PaddleDtype, string> := map[
    Int8 := "int8", Int16 := "int16", Int32 := "int32", Int64 := "int64", UInt8 := "uint8",
    Float16 := "float16", Float32 := "float32", Float64 := "float64",
    Complex64 := "complex64", Complex128 := "complex128",
    Bool := "bool"]

  /** `native_dtype_dict`: ivy dtype name to Paddle dtype. */
  const NativeDtypeDict: map<string, PaddleDtype> := map[
    "int8" := Int8, "int16" := Int16, "int32" := Int32, "int64" := Int64, "uint8" := UInt8,
    "float16" := Float16, "float32" := Float32, "float64" := Float64,
    "complex64" := Complex64, "complex128" := Complex128,
    "bool" := Bool]

  /** `ivy_dtype_dict` knows every Paddle dtype but `bfloat16`. */
  lemma InTable(d: PaddleDtype)
    ensures d in IvyDtypeDict <==> d != BFloat16
  {
  }

  /** Nor does `native_dtype_dict` know the name `bfloat16`. */
  lemma BFloat16Unnamed()
    ensures "bfloat16" !in NativeDtypeDict
  {
  }

  /** Looking a table dtype's name up in `native_dtype_dict` gives the dtype back. */
  lemma NameInverse(d: PaddleDtype)
    requires d in IvyDtypeDict
    ensures IvyDtypeDict[d] in NativeDtypeDict && NativeDtypeDict[IvyDtypeDict[d]] == d
  {
  }

  /** Looking a supported name's dtype up in `ivy_dtype_dict` gives the name back. */
  lemma NativeInverse(s: string)
    requires s in NativeDtypeDict
    ensures NativeDtypeDict[s] in IvyDtypeDict && IvyDtypeDict[NativeDtypeDict[s]] == s
  {
  }

  /** The two tables are inverse bijections over the same eleven dtypes: every Paddle dtype
    * but `bfloat16`, which neither table knows by dtype or by name. */
  lemma TablesInverse()
    ensures forall d :: d in IvyDtypeDict <==> d != BFloat16
    ensures forall d :: d in IvyDtypeDict ==>
      IvyDtypeDict[d] in NativeDtypeDict && NativeDtypeDict[IvyDtypeDict[d]] == d
    ensures forall s :: s in NativeDtypeDict ==>
      NativeDtypeDict[s] in IvyDtypeDict && IvyDtypeDict[NativeDtypeDict[s]] == s
    ensures "bfloat16" !in NativeDtypeDict
  {
    forall d ensures d in IvyDtypeDict <==> d != BFloat16 { InTable(d); }
    BFloat16Unnamed();
    forall d | d in IvyDtypeDict
      ensures IvyDtypeDict[d] in NativeDtypeDict && NativeDtypeDict[IvyDtypeDict[d]] == d
    {
      NameInverse(d);
    }
    forall s | s in NativeDtypeDict
      ensures NativeDtypeDict[s] in IvyDtypeDict && IvyDtypeDict[NativeDtypeDict[s]] == s
    {
      NativeInverse(s);
    }
  }

  /** What the conversions accept: the builtin classes `int`, `float`, `complex` and `bool`
    * themselves, a dtype name, or a Paddle dtype. */
  datatype DtypeArg =
    | IntClass
    | FloatClass
    | ComplexClass
    | BoolClass
    | Str(name: string)
    | Native(dtype: PaddleDtype)

  /** ivy's default integer, float and complex dtypes, which the builtin classes stand for. */
  datatype Defaults<T> = Defaults(integer: T, floating: T, complex: T)

  /** `as_ivy_dtype(dtype_in)`: the ivy dtype name. An unsupported name raises IvyException and
    * a Paddle dtype outside `ivy_dtype_dict` raises KeyError. */
  function AsIvyDtype(arg: DtypeArg, defaults: Defaults<string>): (r: Result<string>)
    ensures arg.Str? ==> (r.Ok? <==> arg.name in NativeDtypeDict) && (r.Err? ==> r.error == IvyException)
    ensures arg.Native? ==> (r.Ok? <==> arg.dtype != BFloat16) && (r.Err? ==> r.error == KeyError)
    ensures r.Ok? && (arg.Str? || arg.Native?) ==> r.value in NativeDtypeDict
    ensures arg.IntClass? ==> r == Ok(defaults.integer)
    ensures arg.FloatClass? ==> r == Ok(defaults.floating)
    ensures arg.ComplexClass? ==> r == Ok(defaults.complex)
    ensures arg.BoolClass? ==> r == Ok("bool")
    ensures arg.Str? && r.Ok? ==> r.value == arg.name
    ensures arg.Native? && r.Ok? ==> NativeDtypeDict[r.value] == arg.dtype
  {
    match arg
    case IntClass => Ok(defaults.integer)
    case FloatClass => Ok(defaults.floating)
    case ComplexClass => Ok(defaults.complex)
    case BoolClass => Ok("bool")
    case Str(s) => if s in NativeDtypeDict then Ok(s) else Err(IvyException)
    case Native(d) =>
      InTable(d);
      if d in IvyDtypeDict then NameInverse(d); Ok(IvyDtypeDict[d]) else Err(KeyError)
  }

  /** `as_native_dtype(dtype_in)`: the Paddle dtype. A Paddle dtype is passed through as it is
    * (`bfloat16` included); an unsupported name raises IvyException. */
  function AsNativeDtype(arg: DtypeArg, defaults: Defaults<PaddleDtype>): (r: Result<PaddleDtype>)
    ensures r.Err? <==> arg.Str? && arg.name !in NativeDtypeDict
    ensures r.Err? ==> r.error == IvyException
    ensures arg.Str? && r.Ok? ==> r.value != BFloat16 && r.value == NativeDtypeDict[arg.name]
    ensures arg.IntClass? ==> r == Ok(defaults.integer)
    ensures arg.FloatClass? ==> r == Ok(defaults.floating)
    ensures arg.ComplexClass? ==> r == Ok(defaults.complex)
    ensures arg.BoolClass? ==> r == Ok(Bool)
    ensures arg.Native? ==> r == Ok(arg.dtype)
  {
    match arg
    case IntClass => Ok(defaults.integer)
    case FloatClass => Ok(defaults.floating)
    case ComplexClass => Ok(defaults.complex)
    case BoolClass => Ok(Bool)
    case Native(d) => Ok(d)
    case Str(s) =>
      if s in NativeDtypeDict then
        NativeInverse(s);
        InTable(NativeDtypeDict[s]);
        Ok(NativeDtypeDict[s])
      else Err(IvyException)
  }

  /** Converting a table dtype to its ivy name and back gives the dtype again, and converting a
    * supported name to its Paddle dtype and back gives the name again. */
  lemma ConversionsRoundTrip(d: PaddleDtype, s: string, di: Defaults<string>, dn: Defaults<PaddleDtype>)
    ensures d != BFloat16 ==>
      AsIvyDtype(Native(d), di).Ok? && AsNativeDtype(Str(AsIvyDtype(Native(d), di).value), dn) == Ok(d)
    ensures s in NativeDtypeDict ==>
      AsNativeDtype(Str(s), dn).Ok? && AsIvyDtype(Native(AsNativeDtype(Str(s), dn).value), di) == Ok(s)
  {
    InTable(d);
    if d != BFloat16 {
      NameInverse(d);
    }
    if s in NativeDtypeDict {
      NativeInverse(s);
    }
  }

  /** `bool` means `paddle.bool` to both conversions, and `bfloat16` is refused by name both ways
    * while the Paddle dtype itself only passes `as_native_dtype`. */
  lemma ConversionsEdgeCases(di: Defaults<string>, dn: Defaults<PaddleDtype>)
    ensures AsIvyDtype(BoolClass, di) == Ok("bool") && AsNativeDtype(BoolClass, dn) == Ok(Bool)
    ensures AsNativeDtype(Str(AsIvyDtype(BoolClass, di).value), dn) == AsNativeDtype(BoolClass, dn)
    ensures AsIvyDtype(Str("bfloat16"), di) == Err(IvyException)
    ensures AsNativeDtype(Str("bfloat16"), dn) == Err(IvyException)
    ensures AsIvyDtype(Native(BFloat16), di) == Err(KeyError)
    ensures AsNativeDtype(Native(BFloat16), dn) == Ok(BFloat16)
  {
    BFloat16Unnamed();
  }

  // ---------------------------------------------------------------------
  // dtype and astype

  /** A Paddle tensor, known by its identity and its dtype. */
  datatype Tensor = Tensor(ident: nat, dtype: PaddleDtype)

  /** `dtype(x, as_native=...)`: the tensor's Paddle dtype, or its ivy name. */
  function Dtype(x: Tensor, asNative: bool, defaults: Defaults<string>): (r: Result<DtypeArg>)
    ensures asNative ==> r == Ok(Native(x.dtype))
    ensures !asNative ==> (r.Ok? <==> x.dtype != BFloat16)
    ensures !asNative && r.Ok? ==>
      r.value.Str? && r.value.name in NativeDtypeDict && NativeDtypeDict[r.value.name] == x.dtype
  {
    if asNative then Ok(Native(x.dtype))
    else
      var s := AsIvyDtype(Native(x.dtype), defaults);
      if s.Err? then Err(s.error)
      else
        InTable(x.dtype);
        NameInverse(x.dtype);
        Ok(Str(s.value))
  }

  /** Either form of a tensor's dtype converts back to its Paddle dtype. */
  lemma DtypeToNative(x: Tensor, asNative: bool, di: Defaults<string>, dn: Defaults<PaddleDtype>)
    requires asNative || x.dtype != BFloat16
    ensures Dtype(x, asNative, di).Ok?
    ensures AsNativeDtype(Dtype(x, asNative, di).value, dn) == Ok(x.dtype)
  {
  }

  /** What `astype` hands back: `x` itself, a clone of it, or `x` cast to another dtype. */
  datatype Astyped =
    | Same(x: Tensor)
    | Cloned(x: Tensor)
    | Cast(x: Tensor, to: PaddleDtype)

  /** The dtype of the tensor `astype` hands back. */
  function ResultDtype(a: Astyped): PaddleDtype
  {
    if a.Cast? then a.to else a.x.dtype
  }

  /** `astype(x, dtype, copy=copy)`: convert the requested dtype, then hand back `x` or its clone
    * when it already has that dtype, and a cast otherwise. */
  function Astype(x: Tensor, dtype: DtypeArg, copy: bool, defaults: Defaults<PaddleDtype>): (r: Result<Astyped>)
    ensures r.Err? <==> AsNativeDtype(dtype, defaults).Err?
    ensures r.Ok? ==> r.value.x == x && ResultDtype(r.value) == AsNativeDtype(dtype, defaults).value
    ensures r.Ok? ==> (r.value.Same? <==> !copy && x.dtype == ResultDtype(r.value))
    ensures r.Ok? ==> (r.value.Cast? <==> x.dtype != ResultDtype(r.value))
  {
    var d := AsNativeDtype(dtype, defaults);
    if d.Err? then Err(d.error)
    else if x.dtype == d.value then Ok(if copy then Cloned(x) else Same(x))
    else Ok(Cast(x, d.value))
  }

  /** Casting a tensor to the dtype it reports changes nothing but, with `copy`, its identity. */
  lemma AstypeOwnDtype(x: Tensor, copy: bool, di: Defaults<string>, dn: Defaults<PaddleDtype>)
    requires x.dtype != BFloat16
    ensures Astype(x, Dtype(x, false, di).value, copy, dn) == Ok(if copy then Cloned(x) else Same(x))
  {
    DtypeToNative(x, false, di, dn);
  }

  // ---------------------------------------------------------------------
  // dtype_bits

  /** The substrings `dtype_bits` strips, in the order it strips them. */
  const StripOrder: seq<string> := ["paddle.", "uint", "int", "bfloat", "float", "complex"]

  /** The replace chain of `dtype_bits` from its `i`-th step on: each substring of
    * `StripOrder` removed wherever it occurs, one after the other. */
  function StripFrom(s: string, i: nat): string
    requires i <= |StripOrder|
    decreases |StripOrder| - i
  {
    if i == |StripOrder| then s else StripFrom(Replace(s, StripOrder[i], ""), i + 1)
  }

  /** The whole replace chain. */
  function StripFamily(s: string): string
  {
    StripFrom(s, 0)
  }

  /** `dtype_bits(dtype_in)`: 1 for a name containing `bool`, else `int()` of what is left of
    * the ivy name once the family prefixes are stripped. */
  function DtypeBits(arg: DtypeArg, defaults: Defaults<string>): (r: Result<nat>)
    ensures AsIvyDtype(arg, defaults).Err? ==> r == Err(AsIvyDtype(arg, defaults).error)
    ensures AsIvyDtype(arg, defaults).Ok? && Contains(AsIvyDtype(arg, defaults).value, "bool") ==> r == Ok(1)
  {
    var s := AsIvyDtype(arg, defaults);
    if s.Err? then Err(s.error)
    else if Contains(s.value, "bool") then Ok(1)
    else ParseInt(StripFamily(s.value))
  }

  /** The width in bits of each dtype, written out independently of the names. */
  function Bits(d: PaddleDtype): nat
  {
    match d
    case Int8 => 8
    case Int16 => 16
    case Int32 => 32
    case Int64 => 64
    case UInt8 => 8
    case Float16 => 16
    case Float32 => 32
    case Float64 => 64
    case Complex64 => 64
    case Complex128 => 128
    case Bool => 1
    case BFloat16 => 16
  }

  /** The family prefixes `dtype_bits` strips. */
  predicate IsFamily(p: string)
  {
    p == "uint" || p == "int" || p == "bfloat" || p == "float" || p == "complex"
  }

  lemma DigitsLack(w: string, c: char)
    requires forall i :: 0 <= i < |w| ==> IsDigit(w[i])
    requires !IsDigit(c)
    ensures c !in w
  {
  }

  /** The position, in the `j`-th stripped substring, of a letter that no family prefix before
    * it contains: the `d` of `paddle.`, else the first letter. */
  function Marker(j: nat): nat
  {
    if j == 0 then 2 else 0
  }

  /** Steps of the chain whose substring has a letter missing from `s` leave `s` alone. */
  lemma {:induction false} StripSkips(s: string, i: nat, m: nat)
    requires i <= m <= |StripOrder|
    requires forall j :: i <= j < m ==> StripOrder[j][Marker(j)] !in s
    ensures StripFrom(s, i) == StripFrom(s, m)
    decreases m - i
  {
    if i < m {
      ReplaceMissingChar(s, StripOrder[i], "", Marker(i));
      StripSkips(s, i + 1, m);
    }
  }

  /** The chain leaves a numeral alone. */
  lemma StripNumeral(w: string, i: nat)
    requires IsNumeral(w) && i <= |StripOrder|
    ensures StripFrom(w, i) == w
  {
    forall j | i <= j < |StripOrder| ensures StripOrder[j][Marker(j)] !in w {
      DigitsLack(w, StripOrder[j][Marker(j)]);
    }
    StripSkips(w, i, |StripOrder|);
  }

  /** Where each family prefix stands in the chain. */
  function FamilyIndex(p: string): (m: nat)
    requires IsFamily(p)
    ensures 1 <= m < |StripOrder| && StripOrder[m] == p
    ensures forall j :: 0 <= j < m ==> StripOrder[j][Marker(j)] !in p
  {
    if p == "uint" then 1 else if p == "int" then 2 else if p == "bfloat" then 3
    else if p == "float" then 4 else 5
  }

  /** A family prefix followed by a numeral is stripped to the numeral: the steps before the
    * prefix's own find nothing, its own removes it, and the rest leave the numeral alone. */
  lemma {:induction false} StripFamilyNumeral(p: string, w: string)
    requires IsFamily(p) && IsNumeral(w)
    ensures StripFamily(p + w) == w
  {
    var m := FamilyIndex(p);
    forall j | 0 <= j < m ensures StripOrder[j][Marker(j)] !in p + w {
      DigitsLack(w, StripOrder[j][Marker(j)]);
    }
    StripSkips(p + w, 0, m);
    ReplaceLeading(p, w, "");
    DigitsLack(w, p[0]);
    ReplaceMissingChar(w, p, "", 0);
    assert Replace(p + w, StripOrder[m], "") == w;
    StripNumeral(w, m + 1);
  }

  /** A family prefix followed by a numeral never contains `bool`: no `b` in it is followed
    * by an `o`. */
  lemma NoBoolInFamily(p: string, w: string)
    requires IsFamily(p) && IsNumeral(w)
    ensures !Contains(p + w, "bool")
  {
    var s := p + w;
    forall k | 0 <= k < |s| - 1
      ensures s[k] != "bool"[0] || s[k + 1] != "bool"[1]
    {
      if k + 1 >= |p| {
        assert s[k + 1] == w[k + 1 - |p|];
        assert IsDigit(s[k + 1]);
      }
    }
    NoOccurrenceByPairs(s, "bool");
  }

  /** Any dtype named by a family prefix and a numeral, including ivy's defaults, has the
    * numeral's value as its width. */
  lemma {:induction false} DtypeBitsFamily(arg: DtypeArg, defaults: Defaults<string>, p: string, n: nat)
    requires IsFamily(p)
    requires AsIvyDtype(arg, defaults) == Ok(p + NatToStr(n))
    ensures DtypeBits(arg, defaults) == Ok(n)
  {
    var w := NatToStr(n);
    NoBoolInFamily(p, w);
    StripFamilyNumeral(p, w);
    ParseNatToStr(n);
  }

  /** Every dtype of the tables has its width as `dtype_bits`, whether given as a Paddle dtype
    * or by its ivy name. */
  lemma DtypeBitsTable(d: PaddleDtype, defaults: Defaults<string>)
    requires d != BFloat16
    ensures DtypeBits(Native(d), defaults) == Ok(Bits(d))
    ensures DtypeBits(Str(IvyDtypeDict[d]), defaults) == Ok(Bits(d))
  {
    InTable(d);
    NameInverse(d);
    var name := IvyDtypeDict[d];
    assert AsIvyDtype(Native(d), defaults) == Ok(name);
    assert AsIvyDtype(Str(name), defaults) == Ok(name);
    DtypeBitsOfName(d, Native(d), defaults);
    DtypeBitsOfName(d, Str(name), defaults);
  }

  /** Any argument that `as_ivy_dtype` turns into a table dtype's name has that dtype's width. */
  lemma DtypeBitsOfName(d: PaddleDtype, arg: DtypeArg, defaults: Defaults<string>)
    requires d in IvyDtypeDict && AsIvyDtype(arg, defaults) == Ok(IvyDtypeDict[d])
    ensures DtypeBits(arg, defaults) == Ok(Bits(d))
  {
    if d == Bool {
      assert OccursAt(IvyDtypeDict[d], "bool", 0);
    } else {
      var p, n := FamilyOf(d);
      DtypeBitsFamily(arg, defaults, p, n);
    }
  }

  /** The family prefix and width that spell a non-boolean table dtype's name. */
  lemma FamilyOf(d: PaddleDtype) returns (p: string, n: nat)
    requires d in IvyDtypeDict && d != Bool
    ensures IsFamily(p) && n == Bits(d) && IvyDtypeDict[d] == p + NatToStr(n)
  {
    match d
    case Int8 => p, n := "int", 8;
    case Int16 => p, n := "int", 16; Numeral16();
    case Int32 => p, n := "int", 32; Numeral32();
    case Int64 => p, n := "int", 64; Numeral64();
    case UInt8 => p, n := "uint", 8;
    case Float16 => p, n := "float", 16; Numeral16();
    case Float32 => p, n := "float", 32; Numeral32();
    case Float64 => p, n := "float", 64; Numeral64();
    case Complex64 => p, n := "complex", 64; Numeral64();
    case Complex128 => p, n := "complex", 128; Numeral128();
  }

  lemma Numeral16() ensures NatToStr(16) == "16" {}
  lemma Numeral32() ensures NatToStr(32) == "32" {}
  lemma Numeral64() ensures NatToStr(64) == "64" {}
  lemma Numeral128() ensures NatToStr(128) == "128" { assert NatToStr(12) == "12"; }

  /** The boolean class and a name containing `bool` have width one, and `bfloat16` is refused:
    * by name with IvyException, as a Paddle dtype with KeyError. */
  lemma DtypeBitsEdgeCases(defaults: Defaults<string>)
    ensures DtypeBits(BoolClass, defaults) == Ok(1)
    ensures DtypeBits(Str("bfloat16"), defaults) == Err(IvyException)
    ensures DtypeBits(Native(BFloat16), defaults) == Err(KeyError)
  {
    assert OccursAt("bool", "bool", 0);
    BFloat16Unnamed();
  }
}
