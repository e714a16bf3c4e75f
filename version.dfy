/**
 * The version resolver of `ivy/utils/backend/handler.py`: a backend may define
 * several variants of one function, named `<fn>_v_<start>_to_<end>`,
 * `<fn>_v_<start>_and_above` or `<fn>_v_<bound>_and_below`, with version
 * components joined by `p`; the installed framework's version string (any
 * `+<local>` build suffix dropped, components joined by `.`) decides which
 * variant the canonical name `<fn>` stands for. Versions compare as Python
 * tuples of ints.
 */
module Version {
  import opened Common
  import opened PyStr

  // ---------------------------------------------------------------------
  // Python tuple comparison

  /** Python's `a < b` on tuples of ints: lexicographic, a proper prefix is smaller. */
  predicate TupleLt(a: seq<nat>, b: seq<nat>)
    decreases |a|
  {
    if |a| == 0 then |b| > 0
    else if |b| == 0 then false
    else if a[0] != b[0] then a[0] < b[0]
    else TupleLt(a[1..], b[1..])
  }

  /** Python's `a <= b` on tuples of ints. */
  predicate TupleLe(a: seq<nat>, b: seq<nat>)
  {
    a == b || TupleLt(a, b)
  }

  lemma {:induction false} TupleLtIrreflexive(a: seq<nat>)
    ensures !TupleLt(a, a)
    decreases |a|
  {
    if |a| > 0 {
      TupleLtIrreflexive(a[1..]);
    }
  }

  lemma {:induction false} TupleLtTransitive(a: seq<nat>, b: seq<nat>, c: seq<nat>)
    requires TupleLt(a, b) && TupleLt(b, c)
    ensures TupleLt(a, c)
    decreases |a|
  {
    if |a| > 0 && |b| > 0 && |c| > 0 && a[0] == b[0] && b[0] == c[0] {
      TupleLtTransitive(a[1..], b[1..], c[1..]);
    }
  }

  /** Any two version tuples are ordered one way or the other (trichotomy). */
  lemma {:induction false} TupleLtTotal(a: seq<nat>, b: seq<nat>)
    ensures TupleLt(a, b) || a == b || TupleLt(b, a)
    decreases |a|
  {
    if |a| > 0 && |b| > 0 && a[0] == b[0] {
      TupleLtTotal(a[1..], b[1..]);
      if a[1..] == b[1..] {
        assert a == [a[0]] + a[1..] && b == [b[0]] + b[1..];
      }
    }
  }

  /** `<=` on version tuples is a total order. */
  lemma TupleLeTotalOrder(a: seq<nat>, b: seq<nat>, c: seq<nat>)
    ensures TupleLe(a, a)
    ensures TupleLe(a, b) && TupleLe(b, a) ==> a == b
    ensures TupleLe(a, b) && TupleLe(b, c) ==> TupleLe(a, c)
    ensures TupleLe(a, b) || TupleLe(b, a)
  {
    TupleLtTotal(a, b);
    if TupleLt(a, b) && TupleLt(b, a) {
      TupleLtTransitive(a, b, a);
      TupleLtIrreflexive(a);
    }
    if TupleLt(a, b) && TupleLt(b, c) {
      TupleLtTransitive(a, b, c);
    }
  }

  // ---------------------------------------------------------------------
  // Parsing

  /** `tuple(map(int, parts))`: the first part that is not a numeral raises. */
  function ParseInts(parts: seq<string>): (r: Result<seq<nat>>)
    ensures r.Ok? ==> |r.value| == |parts|
    ensures r.Ok? <==> forall i :: 0 <= i < |parts| ==> IsNumeral(parts[i])
  {
    if parts == [] then Ok([])
    else
      match ParseInt(parts[0])
      case Err(e) => Err(e)
      case Ok(n) =>
        match ParseInts(parts[1..])
        case Err(e) =>
          assert !IsNumeral(parts[1..][0]) || exists i :: 0 <= i < |parts[1..]| && !IsNumeral(parts[1..][i]);
          Err(e)
        case Ok(ns) => Ok([n] + ns)
  }

  /** `tuple(map(int, s.split(sep)))`. */
  function ParseTuple(s: string, sep: char): Result<seq<nat>>
  {
    ParseInts(Split(s, sep))
  }

  /** The framework version as a tuple: the text before the first `+`, split on `.`. */
  function ParseVersion(version: string): Result<seq<nat>>
  {
    var plus := Find(version, "+");
    var release := if plus != -1 then version[..plus] else version;
    ParseTuple(release, '.')
  }

  /** `name_v_...` resolved against `version`: the canonical name when the version lies in the
    * variant's range, None when it does not, and an error for a malformed name or version. */
  function FnNameFromVersionSpecificFnName(name: string, version: string): (r: Result<Option<string>>)
    ensures r.Ok? && r.value.Some? ==> Contains(name, "_v_") && r.value.value == name[..Find(name, "_v_")]
    ensures !Contains(name, "_v_") ==> r.Err?
  {
    match ParseVersion(version)
    case Err(e) => Err(e)
    case Ok(ver) =>
      if Contains(name, "_to_") then FromRange(name, ver)
      else if Contains(name, "_and_above") then FromBound(name, ver, true)
      else FromBound(name, ver, false)
  }

  /** The `_to_` branch: `name[:i]` when start <= version <= end. */
  function FromRange(name: string, ver: seq<nat>): (r: Result<Option<string>>)
    ensures r.Ok? && r.value.Some? ==> Contains(name, "_v_") && r.value.value == name[..Find(name, "_v_")]
    ensures !Contains(name, "_v_") ==> r.Err?
  {
    match Index(name, "_v_")
    case Err(x) => Err(x)
    case Ok(i) =>
      match Index(name, "_to_")
      case Err(x) => Err(x)
      case Ok(e) =>
        match ParseTuple(Slice(name, i + 3, e), 'p')
        case Err(x) => Err(x)
        case Ok(start) =>
          match ParseTuple(name[e + 4..], 'p')
          case Err(x) => Err(x)
          case Ok(end) =>
            if TupleLe(start, ver) && TupleLe(ver, end) then Ok(Some(name[..i])) else Ok(None)
  }

  /** The `_and_` branches: `name[:i]` when version >= the bound (`above`) or version <= it. */
  function FromBound(name: string, ver: seq<nat>, above: bool): (r: Result<Option<string>>)
    ensures r.Ok? && r.value.Some? ==> Contains(name, "_v_") && r.value.value == name[..Find(name, "_v_")]
    ensures !Contains(name, "_v_") ==> r.Err?
  {
    match Index(name, "_v_")
    case Err(x) => Err(x)
    case Ok(i) =>
      match Index(name, "_and_")
      case Err(x) => Err(x)
      case Ok(e) =>
        match ParseTuple(Slice(name, i + 3, e), 'p')
        case Err(x) => Err(x)
        case Ok(bound) =>
          if (if above then TupleLe(bound, ver) else TupleLe(ver, bound)) then Ok(Some(name[..i])) else Ok(None)
  }

  /** What is cut off before the first occurrence of a pattern does not contain it. */
  lemma PrefixBeforeFirst(s: string, pat: string)
    requires |pat| > 0 && Find(s, pat) != -1
    ensures !Contains(s[..Find(s, pat)], pat)
  {
    var i := Find(s, pat);
    var a := s[..i];
    assert s == a + s[i..];
    forall k | OccursAt(a, pat, k) ensures false {
      OccursPrefix(a, s[i..], pat, k);
    }
  }

  /** A canonical name never itself names a variant, so rebinding it cannot disturb one. */
  lemma CanonicalHasNoMarker(name: string, version: string)
    requires FnNameFromVersionSpecificFnName(name, version).Ok?
    requires FnNameFromVersionSpecificFnName(name, version).value.Some?
    ensures !Contains(FnNameFromVersionSpecificFnName(name, version).value.value, "_v_")
  {
    PrefixBeforeFirst(name, "_v_");
  }

  // ---------------------------------------------------------------------
  // The name and version grammars, written out, and what they resolve to

  /** A version tuple written with `sep` between its components. */
  function Encode(v: seq<nat>, sep: char): string
    requires |v| >= 1
  {
    Join(seq(|v|, i requires 0 <= i < |v| => NatToStr(v[i])), sep)
  }

  /** A framework version string such as `2.4.1` or `1.13.1+cu117`. */
  function VersionString(v: seq<nat>, local: Option<string>): string
    requires |v| >= 1
  {
    Encode(v, '.') + (if local.Some? then "+" + local.value else "")
  }

  function RangeName(fn: string, start: seq<nat>, end: seq<nat>): string
    requires |start| >= 1 && |end| >= 1
  {
    fn + ("_v_" + Encode(start, 'p') + ("_to_" + Encode(end, 'p')))
  }

  function AboveName(fn: string, start: seq<nat>): string
    requires |start| >= 1
  {
    fn + ("_v_" + Encode(start, 'p') + "_and_above")
  }

  function BelowName(fn: string, bound: seq<nat>): string
    requires |bound| >= 1
  {
    fn + ("_v_" + Encode(bound, 'p') + "_and_below")
  }

  /** A canonical name in which none of the markers `_v_`, `_to_`, `_and_` appears,
    * not even using the underscore that follows it. */
  ghost predicate PlainName(fn: string)
  {
    RangePlainName(fn) && NoMarkerIn(fn, "_and_")
  }

  /** What the `_to_` branch needs of the canonical name: neither `_v_` nor `_to_` appears in
    * it, not even using the underscore that follows it. `_and_` may. */
  ghost predicate RangePlainName(fn: string)
  {
    NoMarkerIn(fn, "_v_") && NoMarkerIn(fn, "_to_")
  }

  /** `pat` appears nowhere in `fn`, not even using the underscore that follows it. */
  ghost predicate NoMarkerIn(fn: string, pat: string)
  {
    forall k :: !OccursAt(fn + "_", pat, k)
  }

  lemma {:induction false} JoinChars(parts: seq<string>, sep: char)
    requires |parts| >= 1
    requires forall i :: 0 <= i < |parts| ==> IsNumeral(parts[i])
    ensures |Join(parts, sep)| > 0 && IsDigit(Join(parts, sep)[0])
    ensures forall i :: 0 <= i < |Join(parts, sep)| ==>
      IsDigit(Join(parts, sep)[i]) || Join(parts, sep)[i] == sep
    decreases |parts|
  {
    if |parts| > 1 {
      JoinChars(parts[1..], sep);
      var rest := Join(parts[1..], sep);
      assert Join(parts, sep) == parts[0] + [sep] + rest;
      forall i | 0 <= i < |Join(parts, sep)|
        ensures IsDigit(Join(parts, sep)[i]) || Join(parts, sep)[i] == sep
      {
        if i > |parts[0]| {
          assert Join(parts, sep)[i] == rest[i - |parts[0]| - 1];
        }
      }
    }
  }

  lemma EncodeChars(v: seq<nat>, sep: char)
    requires |v| >= 1
    ensures |Encode(v, sep)| > 0 && IsDigit(Encode(v, sep)[0])
    ensures forall i :: 0 <= i < |Encode(v, sep)| ==> IsDigit(Encode(v, sep)[i]) || Encode(v, sep)[i] == sep
  {
    JoinChars(seq(|v|, i requires 0 <= i < |v| => NatToStr(v[i])), sep);
  }

  lemma {:induction false} ParseNumerals(v: seq<nat>)
    ensures ParseInts(seq(|v|, i requires 0 <= i < |v| => NatToStr(v[i]))) == Ok(v)
    decreases |v|
  {
    var parts := seq(|v|, i requires 0 <= i < |v| => NatToStr(v[i]));
    if |v| > 0 {
      ParseNatToStr(v[0]);
      ParseNumerals(v[1..]);
      assert parts[1..] == seq(|v[1..]|, i requires 0 <= i < |v[1..]| => NatToStr(v[1..][i]));
      assert v == [v[0]] + v[1..];
    }
  }

  /** Writing a version tuple out and parsing it back gives the tuple. */
  lemma ParseEncode(v: seq<nat>, sep: char)
    requires |v| >= 1 && !IsDigit(sep)
    ensures ParseTuple(Encode(v, sep), sep) == Ok(v)
  {
    var parts := seq(|v|, i requires 0 <= i < |v| => NatToStr(v[i]));
    forall i | 0 <= i < |parts| ensures sep !in parts[i] {
      assert IsNumeral(parts[i]);
    }
    SplitJoin(parts, sep);
    ParseNumerals(v);
  }

  /** A local build suffix after `+` does not take part in the comparison. */
  lemma ParseVersionString(v: seq<nat>, local: Option<string>)
    requires |v| >= 1
    ensures ParseVersion(VersionString(v, local)) == Ok(v)
  {
    var release := Encode(v, '.');
    EncodeChars(v, '.');
    ParseEncode(v, '.');
    var s := VersionString(v, local);
    if local.Some? {
      var rest := "+" + local.value;
      assert s == release + rest;
      forall j | 0 <= j < |release| ensures !OccursAt(s, "+", j) {
        assert s[j] == release[j];
      }
      assert OccursAt(s, "+", |release|) by {
        assert s[|release|..|release| + 1] == "+";
      }
      FindIs(s, "+", |release|);
      assert s[..|release|] == release;
    } else {
      assert s == release;
      forall j | 0 <= j && j + 1 <= |s| ensures !OccursAt(s, "+", j) {
        assert s[j..j + 1][0] == s[j];
      }
    }
  }

  /** No marker starts inside the canonical name (its next characters are `_v`). */
  lemma NoMarkerInName(fn: string, rest: string, pat: string, j: int)
    requires |rest| >= 2 && rest[0] == '_' && rest[1] == 'v'
    requires forall k :: !OccursAt(fn + "_", pat, k)
    requires forall t :: 2 <= t < |pat| ==> pat[t] != 'v'
    requires 0 <= j < |fn|
    ensures !OccursAt(fn + rest, pat, j)
  {
    var s := fn + rest;
    if j + |pat| <= |fn| + 1 {
      assert s[..|fn| + 1] == fn + "_";
      assert !OccursAt(fn + "_", pat, j);
      if j + |pat| <= |s| {
        assert s[j..j + |pat|] == (fn + "_")[j..j + |pat|];
      }
    } else if j + |pat| <= |s| {
      var t := |fn| + 1 - j;
      assert s[j..j + |pat|][t] == 'v';
    }
  }

  /** In `_v_<version>...`, an underscore before the end of the version is followed by `v` or
    * by a digit. */
  lemma UnderscoreFollowed(ver: string, tail: string, m: int)
    requires VersionText(ver)
    requires 0 <= m < 3 + |ver|
    ensures var r := "_v_" + ver + tail;
      r[m] != '_' || (m + 1 < |r| && (r[m + 1] == 'v' || IsDigit(r[m + 1])))
  {
    var r := "_v_" + ver + tail;
    if m >= 3 {
      assert r[m] == ver[m - 3];
    } else if m == 2 {
      assert r[m + 1] == ver[0];
    }
  }

  /** No marker starts inside `_v_<version>` (a `_` there is followed by `v` or a digit). */
  lemma NoMarkerInRange(fn: string, ver: string, tail: string, pat: string, j: int)
    requires |pat| >= 2 && pat[0] == '_' && pat[1] != 'v' && !IsDigit(pat[1])
    requires VersionText(ver)
    requires |fn| <= j < |fn| + 3 + |ver|
    ensures !OccursAt(fn + ("_v_" + ver + tail), pat, j)
  {
    var r := "_v_" + ver + tail;
    var s := fn + r;
    var m := j - |fn|;
    if j + |pat| <= |s| {
      var w := s[j..j + |pat|];
      UnderscoreFollowed(ver, tail, m);
      assert w[0] == r[m];
      if r[m] == '_' {
        assert w[1] == r[m + 1];
      }
      assert w[0] != pat[0] || w[1] != pat[1];
    }
  }

  /** No marker starts anywhere inside the canonical name. */
  lemma NoMarkerBefore(fn: string, rest: string, pat: string)
    requires |rest| >= 2 && rest[0] == '_' && rest[1] == 'v'
    requires forall k :: !OccursAt(fn + "_", pat, k)
    requires forall t :: 2 <= t < |pat| ==> pat[t] != 'v'
    ensures forall j :: 0 <= j < |fn| ==> !OccursAt(fn + rest, pat, j)
  {
    forall j | 0 <= j < |fn| ensures !OccursAt(fn + rest, pat, j) {
      NoMarkerInName(fn, rest, pat, j);
    }
  }

  /** The first `_v_` of a variant name is the one after a plain canonical name. */
  lemma VersionMarkerPosition(fn: string, ver: string, tail: string)
    requires NoMarkerIn(fn, "_v_")
    ensures Find(fn + ("_v_" + ver + tail), "_v_") == |fn|
  {
    var rest := "_v_" + ver + tail;
    assert rest[..3] == "_v_";
    assert OccursAt(rest, "_v_", 0);
    NoMarkerBefore(fn, rest, "_v_");
    OccursShift(fn, rest, "_v_", |fn|);
    FindIs(fn + rest, "_v_", |fn|);
  }

  /** What a version written with `p` separators looks like: a digit, then no underscore. */
  ghost predicate VersionText(ver: string)
  {
    |ver| > 0 && IsDigit(ver[0]) && forall i :: 0 <= i < |ver| ==> ver[i] != '_'
  }

  lemma EncodeIsVersionText(v: seq<nat>)
    requires |v| >= 1
    ensures VersionText(Encode(v, 'p'))
  {
    EncodeChars(v, 'p');
  }

  /** The shape shared by the markers `_to_` and `_and_`. */
  ghost predicate TailMarker(pat: string)
  {
    |pat| >= 2 && pat[0] == '_' && pat[1] != 'v' && !IsDigit(pat[1])
    && forall t :: 2 <= t < |pat| ==> pat[t] != 'v'
  }

  lemma TailMarkers()
    ensures TailMarker("_to_") && TailMarker("_and_")
  {
  }

  /** No tail marker starts inside `_v_<version>`. */
  lemma NoMarkerInVersion(fn: string, ver: string, tail: string, pat: string)
    requires VersionText(ver) && TailMarker(pat)
    ensures forall j :: |fn| <= j < |fn| + 3 + |ver| ==> !OccursAt(fn + ("_v_" + ver + tail), pat, j)
  {
    forall j | |fn| <= j < |fn| + 3 + |ver| ensures !OccursAt(fn + ("_v_" + ver + tail), pat, j) {
      NoMarkerInRange(fn, ver, tail, pat, j);
    }
  }

  /** The first `_to_` or `_and_` of a variant name is the one right after its version. */
  lemma TailMarkerPosition(fn: string, ver: string, tail: string, pat: string)
    requires VersionText(ver) && TailMarker(pat)
    requires forall k :: !OccursAt(fn + "_", pat, k)
    requires |tail| >= |pat| && tail[..|pat|] == pat
    ensures var s := fn + ("_v_" + ver + tail);
      OccursAt(s, pat, |fn| + 3 + |ver|) && forall j :: 0 <= j < |fn| + 3 + |ver| ==> !OccursAt(s, pat, j)
  {
    var rest := "_v_" + ver + tail;
    assert rest[0] == '_' && rest[1] == 'v';
    NoMarkerBefore(fn, rest, pat);
    NoMarkerInVersion(fn, ver, tail, pat);
    OccursInTail(fn, ver, tail, pat);
  }

  /** The tail marker occurs where the tail starts. */
  lemma OccursInTail(fn: string, ver: string, tail: string, pat: string)
    requires |tail| >= |pat| && tail[..|pat|] == pat
    ensures OccursAt(fn + ("_v_" + ver + tail), pat, |fn| + 3 + |ver|)
  {
    var s := fn + ("_v_" + ver + tail);
    var at := |fn| + 3 + |ver|;
    assert s[at..at + |pat|] == tail[..|pat|];
  }

  /** Which branch the resolver takes for a name holding `_to_`. */
  lemma DispatchRange(name: string, version: string, ver: seq<nat>)
    requires ParseVersion(version) == Ok(ver) && Contains(name, "_to_")
    ensures FnNameFromVersionSpecificFnName(name, version) == FromRange(name, ver)
  {
  }

  /** Which branch the resolver takes for a name without `_to_`. */
  lemma DispatchBound(name: string, version: string, ver: seq<nat>)
    requires ParseVersion(version) == Ok(ver) && !Contains(name, "_to_")
    ensures FnNameFromVersionSpecificFnName(name, version) == FromBound(name, ver, Contains(name, "_and_above"))
  {
  }

  /** The pieces of a variant name, cut out again. */
  lemma VariantSlices(fn: string, ver: string, tail: string)
    ensures var name := fn + ("_v_" + ver + tail); var e := |fn| + 3 + |ver|;
      && e + |tail| == |name|
      && name[..|fn|] == fn && name[|fn| + 3..e] == ver && name[e..] == tail
  {
    var name := fn + ("_v_" + ver + tail);
    var e := |fn| + 3 + |ver|;
    assert name[..|fn|] == fn;
    assert name[|fn| + 3..e] == ver;
    assert name[e..] == tail;
  }

  /** Where the markers of a `_to_` variant name are. */
  lemma RangeNameParts(fn: string, start: seq<nat>, end: seq<nat>)
    requires RangePlainName(fn) && |start| >= 1 && |end| >= 1
    ensures var name := RangeName(fn, start, end); var e := |fn| + 3 + |Encode(start, 'p')|;
      && Contains(name, "_to_")
      && Index(name, "_v_") == Ok(|fn|) && Index(name, "_to_") == Ok(e)
      && Slice(name, |fn| + 3, e) == Encode(start, 'p')
      && e + 4 <= |name| && name[e + 4..] == Encode(end, 'p')
      && name[..|fn|] == fn
  {
    var name := RangeName(fn, start, end);
    var ver := Encode(start, 'p');
    var tail := "_to_" + Encode(end, 'p');
    assert name == fn + ("_v_" + ver + tail);
    EncodeIsVersionText(start);
    VersionMarkerPosition(fn, ver, tail);
    TailMarkers();
    TailMarkerPosition(fn, ver, tail, "_to_");
    FindIs(name, "_to_", |fn| + 3 + |ver|);
    VariantSlices(fn, ver, tail);
    assert name[|fn| + 3 + |ver| + 4..] == tail[4..];
  }

  /** The `_to_` branch once the markers are found and both bounds parse. */
  lemma RangeBranch(name: string, ver: seq<nat>, i: nat, e: nat, start: seq<nat>, end: seq<nat>)
    requires Index(name, "_v_") == Ok(i) && Index(name, "_to_") == Ok(e)
    requires ParseTuple(Slice(name, i + 3, e), 'p') == Ok(start)
    requires e + 4 <= |name| && ParseTuple(name[e + 4..], 'p') == Ok(end)
    ensures FromRange(name, ver) == Ok(if TupleLe(start, ver) && TupleLe(ver, end) then Some(name[..i]) else None)
  {
  }

  /** `_to_` variants match exactly when start <= version <= end. */
  lemma RangeNameResolves(fn: string, start: seq<nat>, end: seq<nat>, v: seq<nat>, local: Option<string>)
    requires RangePlainName(fn) && |start| >= 1 && |end| >= 1 && |v| >= 1
    ensures FnNameFromVersionSpecificFnName(RangeName(fn, start, end), VersionString(v, local))
         == Ok(if TupleLe(start, v) && TupleLe(v, end) then Some(fn) else None)
  {
    var name := RangeName(fn, start, end);
    ParseVersionString(v, local);
    RangeNameParts(fn, start, end);
    ParseEncode(start, 'p');
    ParseEncode(end, 'p');
    RangeBranch(name, v, |fn|, |fn| + 3 + |Encode(start, 'p')|, start, end);
    DispatchRange(name, VersionString(v, local), v);
  }

  /** The two literal tails: neither holds `_to_`, and only one is `_and_above`. */
  lemma LiteralTails()
    ensures forall k :: !OccursAt("_and_above", "_to_", k)
    ensures forall k :: !OccursAt("_and_below", "_to_", k)
    ensures forall k :: !OccursAt("_and_below", "_and_above", k)
  {
    NoOccurrenceByPairs("_and_above", "_to_");
    NoOccurrenceByPairs("_and_below", "_to_");
    forall k | 0 <= k ensures !OccursAt("_and_below", "_and_above", k) {
      if k == 0 {
        assert "_and_below"[5] != "_and_above"[5];
      }
    }
  }

  /** In a variant name ending in a literal tail, `_to_` occurs nowhere and `_and_above`
    * occurs exactly when it is the tail. */
  lemma LiteralTailMarkers(fn: string, ver: string, tail: string)
    requires PlainName(fn) && VersionText(ver)
    requires tail == "_and_above" || tail == "_and_below"
    ensures !Contains(fn + ("_v_" + ver + tail), "_to_")
    ensures Contains(fn + ("_v_" + ver + tail), "_and_above") <==> tail == "_and_above"
  {
    var rest := "_v_" + ver + tail;
    var pre := fn + ("_v_" + ver);
    var s := fn + rest;
    assert s == pre + tail;
    LiteralTails();
    assert "_and_above"[..5] == "_and_";
    forall j | 0 <= j < |fn| ensures !OccursAt(s, "_to_", j) && !OccursAt(s, "_and_", j) {
      NoMarkerInName(fn, rest, "_to_", j);
      NoMarkerInName(fn, rest, "_and_", j);
    }
    forall j | |fn| <= j < |pre| ensures !OccursAt(s, "_to_", j) && !OccursAt(s, "_and_", j) {
      NoMarkerInRange(fn, ver, tail, "_to_", j);
      NoMarkerInRange(fn, ver, tail, "_and_", j);
    }
    forall j | 0 <= j < |pre| ensures !OccursAt(s, "_and_above", j) {
      OccursPrefixPattern(s, "_and_above", 5, j);
    }
    forall j | j >= |pre|
      ensures !OccursAt(s, "_to_", j)
      ensures OccursAt(s, "_and_above", j) <==> OccursAt(tail, "_and_above", j - |pre|)
    {
      OccursShift(pre, tail, "_to_", j);
      OccursShift(pre, tail, "_and_above", j);
    }
    if tail == "_and_above" {
      assert OccursAt(tail, "_and_above", 0);
      assert OccursAt(s, "_and_above", |pre|);
    }
  }

  /** Where the markers of an `_and_above` or `_and_below` variant name are. */
  lemma BoundNameParts(fn: string, bound: seq<nat>, tail: string)
    requires PlainName(fn) && |bound| >= 1
    requires tail == "_and_above" || tail == "_and_below"
    ensures var name := fn + ("_v_" + Encode(bound, 'p') + tail); var e := |fn| + 3 + |Encode(bound, 'p')|;
      && !Contains(name, "_to_")
      && (Contains(name, "_and_above") <==> tail == "_and_above")
      && Index(name, "_v_") == Ok(|fn|) && Index(name, "_and_") == Ok(e)
      && Slice(name, |fn| + 3, e) == Encode(bound, 'p')
      && name[..|fn|] == fn
  {
    var ver := Encode(bound, 'p');
    var name := fn + ("_v_" + ver + tail);
    EncodeIsVersionText(bound);
    BoundMarkerPositions(fn, ver, tail);
    LiteralTailMarkers(fn, ver, tail);
    VariantSlices(fn, ver, tail);
  }

  /** The first `_v_` and the first `_and_` of a bound variant name. */
  lemma BoundMarkerPositions(fn: string, ver: string, tail: string)
    requires PlainName(fn) && VersionText(ver)
    requires tail == "_and_above" || tail == "_and_below"
    ensures var name := fn + ("_v_" + ver + tail);
      Find(name, "_v_") == |fn| && Find(name, "_and_") == |fn| + 3 + |ver|
  {
    var name := fn + ("_v_" + ver + tail);
    VersionMarkerPosition(fn, ver, tail);
    TailMarkers();
    assert tail[..5] == "_and_";
    TailMarkerPosition(fn, ver, tail, "_and_");
    FindIs(name, "_and_", |fn| + 3 + |ver|);
  }

  /** The `_and_` branches once the markers are found and the bound parses. */
  lemma BoundBranch(name: string, ver: seq<nat>, above: bool, i: nat, e: nat, bound: seq<nat>)
    requires Index(name, "_v_") == Ok(i) && Index(name, "_and_") == Ok(e)
    requires ParseTuple(Slice(name, i + 3, e), 'p') == Ok(bound)
    ensures FromBound(name, ver, above)
         == Ok(if (if above then TupleLe(bound, ver) else TupleLe(ver, bound)) then Some(name[..i]) else None)
  {
  }

  /** `_and_above` variants match exactly when version >= start. */
  lemma AboveNameResolves(fn: string, start: seq<nat>, v: seq<nat>, local: Option<string>)
    requires PlainName(fn) && |start| >= 1 && |v| >= 1
    ensures FnNameFromVersionSpecificFnName(AboveName(fn, start), VersionString(v, local))
         == Ok(if TupleLe(start, v) then Some(fn) else None)
  {
    var name := AboveName(fn, start);
    assert name == fn + ("_v_" + Encode(start, 'p') + "_and_above");
    ParseVersionString(v, local);
    BoundNameParts(fn, start, "_and_above");
    ParseEncode(start, 'p');
    BoundBranch(name, v, true, |fn|, |fn| + 3 + |Encode(start, 'p')|, start);
    DispatchBound(name, VersionString(v, local), v);
  }

  /** Any other `_v_` variant (`_and_below`) matches exactly when version <= its bound. */
  lemma BelowNameResolves(fn: string, bound: seq<nat>, v: seq<nat>, local: Option<string>)
    requires PlainName(fn) && |bound| >= 1 && |v| >= 1
    ensures FnNameFromVersionSpecificFnName(BelowName(fn, bound), VersionString(v, local))
         == Ok(if TupleLe(v, bound) then Some(fn) else None)
  {
    var name := BelowName(fn, bound);
    assert name == fn + ("_v_" + Encode(bound, 'p') + "_and_below");
    ParseVersionString(v, local);
    BoundNameParts(fn, bound, "_and_below");
    ParseEncode(bound, 'p');
    BoundBranch(name, v, false, |fn|, |fn| + 3 + |Encode(bound, 'p')|, bound);
    DispatchBound(name, VersionString(v, local), v);
  }

  // ---------------------------------------------------------------------
  // Op names that themselves contain a marker

  /** The `_and_` branches raise ValueError when the first `_and_` comes no later than the end of
    * the first `_v_`: the version slice `name[i + 3:e]` is empty and `int("")` raises. */
  lemma BoundMarkerInOpRaises(name: string, ver: seq<nat>, above: bool)
    requires Contains(name, "_v_") && Contains(name, "_and_")
    requires Find(name, "_and_") <= Find(name, "_v_") + 3
    ensures FromBound(name, ver, above) == Err(ValueError)
  {
    assert Slice(name, Find(name, "_v_") + 3, Find(name, "_and_")) == [];
    assert Split([], 'p') == [""];
    assert !IsNumeral("");
  }

  /** Likewise the `_to_` branch, when the first `_to_` comes no later than the end of `_v_`. */
  lemma RangeMarkerInOpRaises(name: string, ver: seq<nat>)
    requires Contains(name, "_v_") && Contains(name, "_to_")
    requires Find(name, "_to_") <= Find(name, "_v_") + 3
    ensures FromRange(name, ver) == Err(ValueError)
  {
    assert Slice(name, Find(name, "_v_") + 3, Find(name, "_to_")) == [];
    assert Split([], 'p') == [""];
    assert !IsNumeral("");
  }

  /** `logical_and` contains `_and_` but neither `_v_` nor `_to_`, so its `_to_` variants
    * resolve exactly in their range. */
  lemma LogicalAndRangeResolves(fn: string, start: seq<nat>, end: seq<nat>, v: seq<nat>, local: Option<string>)
    requires fn == "logical_and" && |start| >= 1 && |end| >= 1 && |v| >= 1
    ensures FnNameFromVersionSpecificFnName(RangeName(fn, start, end), VersionString(v, local))
         == Ok(if TupleLe(start, v) && TupleLe(v, end) then Some("logical_and") else None)
  {
    LogicalAndRangePlain(fn);
    RangeNameResolves(fn, start, end, v, local);
  }

  lemma LogicalAndRangePlain(fn: string)
    requires fn == "logical_and"
    ensures RangePlainName(fn)
  {
    NoOccurrenceByPairs(fn + "_", "_v_");
    NoOccurrenceByPairs(fn + "_", "_to_");
  }

  /** But its `_and_above` variant is never resolved, whatever the version: the bound
    * branches find the `_and_` inside the op name first. */
  lemma LogicalAndVariantRaises(name: string, ver: string)
    requires name == "logical_and_v_1p0_and_above" && ParseVersion(ver).Ok?
    ensures FnNameFromVersionSpecificFnName(name, ver) == Err(ValueError)
  {
    LogicalAndBranch(name);
    LogicalAndMarkers(name);
    BoundMarkerInOpRaises(name, ParseVersion(ver).value, true);
  }

  /** `logical_and_v_1p0_and_above` takes the `_and_above` branch. */
  lemma LogicalAndBranch(name: string)
    requires name == "logical_and_v_1p0_and_above"
    ensures !Contains(name, "_to_") && Contains(name, "_and_above")
  {
    NoOccurrenceByPairs(name, "_to_");
    assert OccursAt(name, "_and_above", 17);
  }

  /** In `logical_and_v_1p0_and_above`, the first `_and_` is the one inside the op name. */
  lemma LogicalAndMarkers(name: string)
    requires name == "logical_and_v_1p0_and_above"
    ensures Find(name, "_v_") == 11 && Find(name, "_and_") == 7
  {
    LogicalAndNoVersionMarkerBefore(name);
    assert name == "logical" + "_and_v_1p0_and_above";
    NoOccurrenceInPrefix("logical", "_and_v_1p0_and_above", "_and_");
    assert OccursAt(name, "_v_", 11) && OccursAt(name, "_and_", 7);
    FindIs(name, "_v_", 11);
    FindIs(name, "_and_", 7);
  }

  lemma LogicalAndNoVersionMarkerBefore(name: string)
    requires name == "logical_and_v_1p0_and_above"
    ensures forall j :: 0 <= j < 11 ==> !OccursAt(name, "_v_", j)
  {
    assert name == "logical" + "_and_v_1p0_and_above";
    NoOccurrenceInPrefix("logical", "_and_v_1p0_and_above", "_v_");
    assert name[7..10][1] == name[8] && name[8..11][0] == name[8];
    assert name[9..12][0] == name[9] && name[10..13][0] == name[10];
  }

  /** Every variant name of `broadcast_to` holds `_to_`, so it takes the `_to_` branch, which
    * finds the `_to_` inside the op name first: its `_to_` variant is never resolved. */
  lemma BroadcastToVariantRaises(name: string, ver: string)
    requires name == "broadcast_to_v_1p0_to_2p0" && ParseVersion(ver).Ok?
    ensures FnNameFromVersionSpecificFnName(name, ver) == Err(ValueError)
  {
    BroadcastToMarkers(name);
    RangeMarkerInOpRaises(name, ParseVersion(ver).value);
  }

  /** In `broadcast_to_v_1p0_to_2p0`, the first `_to_` is the one inside the op name. */
  lemma BroadcastToMarkers(name: string)
    requires name == "broadcast_to_v_1p0_to_2p0"
    ensures Find(name, "_v_") == 12 && Find(name, "_to_") == 9
  {
    BroadcastToNoVersionMarkerBefore(name);
    assert name == "broadcast" + "_to_v_1p0_to_2p0";
    NoOccurrenceInPrefix("broadcast", "_to_v_1p0_to_2p0", "_to_");
    assert OccursAt(name, "_v_", 12) && OccursAt(name, "_to_", 9);
    FindIs(name, "_v_", 12);
    FindIs(name, "_to_", 9);
  }

  lemma BroadcastToNoVersionMarkerBefore(name: string)
    requires name == "broadcast_to_v_1p0_to_2p0"
    ensures forall j :: 0 <= j < 12 ==> !OccursAt(name, "_v_", j)
  {
    assert name == "broadcast" + "_to_v_1p0_to_2p0";
    NoOccurrenceInPrefix("broadcast", "_to_v_1p0_to_2p0", "_v_");
    assert name[9..12][1] == name[10] && name[10..13][0] == name[10] && name[11..14][0] == name[11];
  }
}
