/**
 * `Rule.get_params` (eventtools/models.py): the rule's parameter text
 * `name:int[,int]*;...` read into a dictionary from parameter name to an
 * integer, or to a list of integers when more than one is given. The
 * Python built-ins it rests on, `str.split` and `int()` on a string, are
 * modelled here too.
 */
module RuleParams {
  import opened Wrappers

  /** A parameter's value: one integer collapses to a scalar, several stay a list. */
  datatype ParamValue = Scalar(value: int) | Values(values: seq<int>)

  /** What `get_params` raises: `str()` of a non-ASCII name, or `int()` of a non-integer. */
  datatype ParamError = NonAsciiName(name: string) | NotAnInteger(text: string)

  // ---------------------------------------------------------------------
  // `str.split(sep)` and its inverse `sep.join`
  // ---------------------------------------------------------------------

  /** `s.split(sep)`: the pieces between separators, empty ones included. */
  function Split(s: string, sep: char): (parts: seq<string>)
    ensures |parts| >= 1
    ensures forall i :: 0 <= i < |parts| ==> sep !in parts[i]
    decreases |s|
  {
    if |s| == 0 then [""]
    else
      var rest := Split(s[1..], sep);
      if s[0] == sep then [""] + rest
      else [[s[0]] + rest[0]] + rest[1..]
  }

  /** `sep.join(parts)`. */
  function Join(parts: seq<string>, sep: char): string
    requires |parts| >= 1
  {
    if |parts| == 1 then parts[0] else parts[0] + [sep] + Join(parts[1..], sep)
  }

  /** Joining the pieces gives back the text. */
  lemma {:induction false} JoinSplit(s: string, sep: char)
    ensures Join(Split(s, sep), sep) == s
    decreases |s|
  {
    if |s| > 0 {
      var rest := Split(s[1..], sep);
      JoinSplit(s[1..], sep);
      if s[0] == sep {
        assert Join(Split(s, sep), sep) == "" + [sep] + Join(rest, sep);
      } else if |rest| > 1 {
        assert Join(rest, sep) == rest[0] + [sep] + Join(rest[1..], sep);
        assert Join(Split(s, sep), sep) == ([s[0]] + rest[0]) + [sep] + Join(rest[1..], sep);
      }
    }
  }

  /** Text without the separator is one piece. */
  lemma {:induction false} SplitWithoutSeparator(p: string, sep: char)
    requires sep !in p
    ensures Split(p, sep) == [p]
    decreases |p|
  {
    if |p| > 0 {
      assert sep !in p[1..] by {
        forall i | 0 <= i < |p[1..]| ensures p[1..][i] != sep {
          assert p[1..][i] == p[i + 1];
        }
      }
      SplitWithoutSeparator(p[1..], sep);
      assert p[0] != sep;
      assert [p[0]] + p[1..] == p;
    }
  }

  /** A separator after a separator-free piece splits it off. */
  lemma {:induction false} SplitAfterPiece(p: string, sep: char, t: string)
    requires sep !in p
    ensures Split(p + [sep] + t, sep) == [p] + Split(t, sep)
    decreases |p|
  {
    if |p| == 0 {
      assert (p + [sep] + t)[1..] == t;
    } else {
      assert (p + [sep] + t)[1..] == p[1..] + [sep] + t;
      SplitAfterPiece(p[1..], sep, t);
      assert [p[0]] + p[1..] == p;
    }
  }

  /** Splitting the joined pieces gives back the pieces, when none contains the separator. */
  lemma {:induction false} SplitJoin(parts: seq<string>, sep: char)
    requires |parts| >= 1
    requires forall i :: 0 <= i < |parts| ==> sep !in parts[i]
    ensures Split(Join(parts, sep), sep) == parts
  {
    if |parts| == 1 {
      SplitWithoutSeparator(parts[0], sep);
    } else {
      SplitJoin(parts[1..], sep);
      SplitAfterPiece(parts[0], sep, Join(parts[1..], sep));
    }
  }

  // ---------------------------------------------------------------------
  // `int(text)` in base 10, and the decimal rendering it inverts
  // ---------------------------------------------------------------------

  /** The whitespace `int()` skips (C's `isspace`). */
  predicate IsSpace(c: char) {
    c == ' ' || c == '\t' || c == '\n' || c == '\r' || c as int == 11 || c as int == 12
  }

  function TrimStart(s: string): string {
    if |s| > 0 && IsSpace(s[0]) then TrimStart(s[1..]) else s
  }

  function TrimEnd(s: string): string {
    if |s| > 0 && IsSpace(s[|s| - 1]) then TrimEnd(s[..|s| - 1]) else s
  }

  /** `TrimStart` drops a prefix of whitespace and nothing else. */
  lemma {:induction false} TrimStartSuffix(s: string)
    ensures |TrimStart(s)| <= |s| && TrimStart(s) == s[|s| - |TrimStart(s)|..]
    ensures forall i :: 0 <= i < |s| - |TrimStart(s)| ==> IsSpace(s[i])
  {
    if |s| > 0 && IsSpace(s[0]) {
      TrimStartSuffix(s[1..]);
      forall i | 1 <= i < |s| - |TrimStart(s)| ensures IsSpace(s[i]) {
        assert s[1..][i - 1] == s[i];
      }
    }
  }

  /** `TrimEnd` drops a suffix of whitespace and nothing else. */
  lemma {:induction false} TrimEndSuffix(s: string)
    ensures |TrimEnd(s)| <= |s| && TrimEnd(s) == s[..|TrimEnd(s)|]
    ensures forall i :: |TrimEnd(s)| <= i < |s| ==> IsSpace(s[i])
  {
    if |s| > 0 && IsSpace(s[|s| - 1]) {
      TrimEndSuffix(s[..|s| - 1]);
      forall i | |TrimEnd(s)| <= i < |s| - 1 ensures IsSpace(s[i]) {
        assert s[..|s| - 1][i] == s[i];
      }
    }
  }

  predicate IsDecimal(s: string) {
    |s| > 0 && forall i :: 0 <= i < |s| ==> '0' <= s[i] <= '9'
  }

  function DigitsValue(s: string): nat
    requires forall i :: 0 <= i < |s| ==> '0' <= s[i] <= '9'
  {
    if |s| == 0 then 0 else 10 * DigitsValue(s[..|s| - 1]) + (s[|s| - 1] as int - '0' as int)
  }

  /**
   * `int(text)`: surrounding whitespace, an optional sign (which Python 2
   * lets whitespace follow) and at least one decimal digit; anything else
   * is a `ValueError`.
   */
  function ParseInt(text: string): Option<int> {
    var t := TrimEnd(TrimStart(text));
    if |t| > 0 && (t[0] == '+' || t[0] == '-') then
      var digits := TrimStart(t[1..]);
      if IsDecimal(digits) then
        var magnitude: int := DigitsValue(digits);
        Some(if t[0] == '-' then -magnitude else magnitude)
      else None
    else if IsDecimal(t) then Some(DigitsValue(t))
    else None
  }

  /** A character `int()` can accept: whitespace, a sign or a decimal digit. */
  predicate IntChar(c: char) {
    IsSpace(c) || '0' <= c <= '9' || c == '+' || c == '-'
  }

  /** Trimming keeps a window of `text`; whatever it drops is whitespace. */
  lemma TrimWindow(text: string)
    ensures var t := TrimEnd(TrimStart(text));
            var off := |text| - |TrimStart(text)|;
            0 <= off && off + |t| <= |text| &&
            (forall i :: 0 <= i < |t| ==> t[i] == text[off + i]) &&
            (forall i :: 0 <= i < |text| && !(off <= i < off + |t|) ==> IsSpace(text[i]))
  {
    var lead := TrimStart(text);
    var t := TrimEnd(lead);
    TrimStartSuffix(text);
    TrimEndSuffix(lead);
    var off := |text| - |lead|;
    forall i | 0 <= i < |t| ensures t[i] == text[off + i] {
      assert t[i] == lead[i];
    }
    forall i | 0 <= i < |text| && !(off <= i < off + |t|) ensures IsSpace(text[i]) {
      if i >= off {
        assert text[i] == lead[i - off];
      }
    }
  }

  /** Bare digits read as their decimal value. */
  lemma ParseIntDecimal(text: string)
    requires IsDecimal(text)
    ensures ParseInt(text) == Some(DigitsValue(text))
  {
    TrimWindow(text);
  }

  /**
   * What `int()` accepts: only whitespace, digits and signs, at least one
   * digit, and a minus sign behind every negative value.
   */
  lemma ParseIntAccepts(text: string)
    requires ParseInt(text).Some?
    ensures forall i :: 0 <= i < |text| ==> IntChar(text[i])
    ensures exists i :: 0 <= i < |text| && '0' <= text[i] <= '9'
    ensures ParseInt(text).value < 0 ==> exists i :: 0 <= i < |text| && text[i] == '-'
  {
    var t := TrimEnd(TrimStart(text));
    var off := |text| - |TrimStart(text)|;
    TrimWindow(text);
    var first: int;
    if |t| > 0 && (t[0] == '+' || t[0] == '-') {
      var digits := TrimStart(t[1..]);
      TrimStartSuffix(t[1..]);
      first := |t| - |digits|;
      forall i | 0 <= i < |t| ensures IntChar(t[i]) {
        if 1 <= i < first {
          assert t[1..][i - 1] == t[i];
        } else if first <= i {
          assert t[i] == digits[i - first];
        }
      }
      assert t[first] == digits[0];
      if ParseInt(text).value < 0 {
        assert text[off] == t[0] == '-';
      }
    } else {
      first := 0;
    }
    assert '0' <= text[off + first] <= '9';
    forall i | 0 <= i < |text| ensures IntChar(text[i]) {
      if off <= i < off + |t| {
        assert text[i] == t[i - off];
      }
    }
  }

  function DigitChar(d: int): char
    requires 0 <= d < 10
  {
    ('0' as int + d) as char
  }

  /** The decimal digits of a natural number. */
  function ShowNat(n: nat): (s: string)
    ensures IsDecimal(s)
  {
    if n < 10 then [DigitChar(n)] else ShowNat(n / 10) + [DigitChar(n % 10)]
  }

  /** `str(n)`. */
  function ShowInt(n: int): (s: string)
    ensures |s| > 0 && !IsSpace(s[0]) && !IsSpace(s[|s| - 1])
    ensures forall i :: 0 <= i < |s| ==> s[i] == '-' || '0' <= s[i] <= '9'
  {
    if n < 0 then "-" + ShowNat(-n) else ShowNat(n)
  }

  lemma {:induction false} ShowNatValue(n: nat)
    ensures DigitsValue(ShowNat(n)) == n
  {
    if n >= 10 {
      ShowNatValue(n / 10);
      var s := ShowNat(n);
      assert s[..|s| - 1] == ShowNat(n / 10);
    }
  }

  /** `int(str(n)) == n`. */
  lemma ParseShowInt(n: int)
    ensures ParseInt(ShowInt(n)) == Some(n)
  {
    var s := ShowInt(n);
    assert TrimStart(s) == s;
    assert TrimEnd(s) == s;
    if n < 0 {
      ShowNatValue(-n);
      assert s[1..] == ShowNat(-n);
      assert TrimStart(s[1..]) == s[1..];
    } else {
      ShowNatValue(n);
    }
  }

  // ---------------------------------------------------------------------
  // `get_params`
  // ---------------------------------------------------------------------

  /** `[int(p) for p in texts]`: the first text that is not an integer raises. */
  function ParseInts(texts: seq<string>): (r: Result<seq<int>, ParamError>)
    ensures r.Ok? <==> forall i :: 0 <= i < |texts| ==> ParseInt(texts[i]).Some?
    ensures r.Ok? ==> |r.value| == |texts| && forall i :: 0 <= i < |texts| ==> r.value[i] == ParseInt(texts[i]).value
    ensures r.Err? ==> exists k :: 0 <= k < |texts| && r.error == NotAnInteger(texts[k]) && ParseInt(texts[k]).None? &&
                                   forall j :: 0 <= j < k ==> ParseInt(texts[j]).Some?
  {
    if texts == [] then Ok([])
    else match ParseInt(texts[0])
      case None => Err(NotAnInteger(texts[0]))
      case Some(v) =>
        var rest := ParseInts(texts[1..]);
        assert forall i :: 1 <= i < |texts| ==> texts[1..][i - 1] == texts[i];
        match rest
        case Err(e) =>
          assert exists k :: 1 <= k < |texts| && e == NotAnInteger(texts[k]) && ParseInt(texts[k]).None? &&
                             forall j :: 0 <= j < k ==> ParseInt(texts[j]).Some? by {
            var k :| 0 <= k < |texts| - 1 && e == NotAnInteger(texts[1..][k]) && ParseInt(texts[1..][k]).None? &&
                     forall j :: 0 <= j < k ==> ParseInt(texts[1..][j]).Some?;
            assert forall j :: 0 <= j < k + 1 ==> ParseInt(texts[j]).Some? by {
              forall j | 0 <= j < k + 1 ensures ParseInt(texts[j]).Some? {
                if j > 0 {
                  assert texts[j] == texts[1..][j - 1];
                }
              }
            }
          }
          Err(e)
        case Ok(vs) => Ok([v] + vs)
  }

  predicate IsAscii(s: string) {
    forall i :: 0 <= i < |s| ==> s[i] as int < 128
  }

  /** A single value collapses to a scalar; several keep their order in a list. */
  function Collapse(vs: seq<int>): (v: ParamValue)
    requires |vs| >= 1
    ensures v.Scalar? <==> |vs| == 1
    ensures v.Scalar? ==> v.value == vs[0]
    ensures v.Values? ==> v.values == vs && |v.values| >= 2
  {
    if |vs| == 1 then Scalar(vs[0]) else Values(vs)
  }

  /** One `;`-separated segment: ignored unless it has exactly one `:`. */
  function ParseSegment(segment: string): Result<Option<(string, ParamValue)>, ParamError> {
    var parts := Split(segment, ':');
    if |parts| != 2 then Ok(None)
    else if !IsAscii(parts[0]) then Err(NonAsciiName(parts[0]))
    else match ParseInts(Split(parts[1], ','))
      case Err(e) => Err(e)
      case Ok(vs) => Ok(Some((parts[0], Collapse(vs))))
  }

  /** The list `param_dict` built from the segments, in order; the first failing segment raises. */
  function SegmentPairs(segments: seq<string>): Result<seq<(string, ParamValue)>, ParamError> {
    if segments == [] then Ok([])
    else match SegmentPairs(segments[..|segments| - 1])
      case Err(e) => Err(e)
      case Ok(pairs) =>
        match ParseSegment(segments[|segments| - 1])
        case Err(e) => Err(e)
        case Ok(None) => Ok(pairs)
        case Ok(Some(p)) => Ok(pairs + [p])
  }

  /** `dict(pairs)`: a later pair for the same name wins. */
  function ToDict(pairs: seq<(string, ParamValue)>): map<string, ParamValue> {
    if pairs == [] then map[] else ToDict(pairs[..|pairs| - 1])[pairs[|pairs| - 1].0 := pairs[|pairs| - 1].1]
  }

  /** What `get_params` returns (or raises) for the rule's `params` field. */
  function ParseParams(params: Option<string>): Result<map<string, ParamValue>, ParamError> {
    match params
    case None => Ok(map[])
    case Some(text) =>
      match SegmentPairs(Split(text, ';'))
      case Err(e) => Err(e)
      case Ok(pairs) => Ok(ToDict(pairs))
  }

  /** `get_params`: one pass over the segments, appending each well-formed one, then `dict`. */
  method GetParams(params: Option<string>) returns (r: Result<map<string, ParamValue>, ParamError>)
    ensures r == ParseParams(params)
  {
    if params.None? {
      return Ok(map[]);
    }
    var segments := Split(params.value, ';');
    var pairs: seq<(string, ParamValue)> := [];
    var i := 0;
    while i < |segments|
      invariant 0 <= i <= |segments|
      invariant SegmentPairs(segments[..i]) == Ok(pairs)
    {
      assert segments[..i + 1][..i] == segments[..i];
      var p := ParseSegment(segments[i]);
      if p.Err? {
        assert SegmentPairs(segments[..i + 1]).Err?;
        FirstErrorStays(segments, i + 1);
        return Err(p.error);
      }
      if p.value.Some? {
        pairs := pairs + [p.value.value];
      }
      i := i + 1;
    }
    assert segments[..|segments|] == segments;
    r := Ok(ToDict(pairs));
  }

  /** Once a prefix of the segments raises, the whole list raises the same error. */
  lemma {:induction false} FirstErrorStays(segments: seq<string>, k: nat)
    requires k <= |segments| && SegmentPairs(segments[..k]).Err?
    ensures SegmentPairs(segments) == SegmentPairs(segments[..k])
    decreases |segments| - k
  {
    if k < |segments| {
      assert segments[..k + 1][..k] == segments[..k];
      FirstErrorStays(segments, k + 1);
    } else {
      assert segments[..k] == segments;
    }
  }

  // ---------------------------------------------------------------------
  // Properties
  // ---------------------------------------------------------------------

  /** A name in `dict(pairs)` is one of the pairs' names, and maps to the value of its last pair. */
  lemma {:induction false} ToDictLastWins(pairs: seq<(string, ParamValue)>, i: nat)
    requires i < |pairs|
    requires forall j :: i < j < |pairs| ==> pairs[j].0 != pairs[i].0
    ensures pairs[i].0 in ToDict(pairs) && ToDict(pairs)[pairs[i].0] == pairs[i].1
  {
    if i < |pairs| - 1 {
      ToDictLastWins(pairs[..|pairs| - 1], i);
    }
  }

  lemma {:induction false} ToDictKeys(pairs: seq<(string, ParamValue)>, name: string)
    ensures name in ToDict(pairs) <==> exists j :: 0 <= j < |pairs| && pairs[j].0 == name
  {
    if pairs != [] {
      var init := pairs[..|pairs| - 1];
      ToDictKeys(init, name);
      if exists j :: 0 <= j < |init| && init[j].0 == name {
        var j :| 0 <= j < |init| && init[j].0 == name;
        assert pairs[j].0 == name;
      }
      if exists j :: 0 <= j < |pairs| && pairs[j].0 == name {
        var j :| 0 <= j < |pairs| && pairs[j].0 == name;
        if j < |init| {
          assert init[j].0 == name;
        }
      }
    }
  }

  /** A segment with exactly one `:`, whose name part is `name`. */
  predicate NamesParameter(segment: string, name: string) {
    var parts := Split(segment, ':');
    |parts| == 2 && parts[0] == name
  }

  /** Every pair of `param_dict` comes from a segment with exactly one `:`, and a list value has at least two integers. */
  lemma {:induction false} SegmentPairsSound(segments: seq<string>, p: (string, ParamValue))
    requires SegmentPairs(segments).Ok? && p in SegmentPairs(segments).value
    ensures exists k :: 0 <= k < |segments| && NamesParameter(segments[k], p.0)
    ensures p.1.Values? ==> |p.1.values| >= 2
  {
    var init := segments[..|segments| - 1];
    var last := segments[|segments| - 1];
    var pairs := SegmentPairs(init).value;
    if p in pairs {
      SegmentPairsSound(init, p);
      var k :| 0 <= k < |init| && NamesParameter(init[k], p.0);
      assert segments[k] == init[k];
    } else {
      assert ParseSegment(last).value == Some(p);
      assert NamesParameter(segments[|segments| - 1], p.0);
    }
  }

  /** Every name in the dictionary built from the segments is named by one of them. */
  lemma SegmentDictSound(segments: seq<string>, name: string)
    requires SegmentPairs(segments).Ok? && name in ToDict(SegmentPairs(segments).value)
    ensures exists k :: 0 <= k < |segments| && NamesParameter(segments[k], name)
    ensures var v := ToDict(SegmentPairs(segments).value)[name]; v.Values? ==> |v.values| >= 2
  {
    var pairs := SegmentPairs(segments).value;
    ToDictKeys(pairs, name);
    var j :| 0 <= j < |pairs| && pairs[j].0 == name;
    var last := LastWithName(pairs, name, j);
    ToDictLastWins(pairs, last);
    SegmentPairsSound(segments, pairs[last]);
  }

  /** Every entry `get_params` returns is named by a well-formed segment; lists hold two or more integers. */
  lemma ParamsComeFromSegments(text: string, name: string)
    requires ParseParams(Some(text)).Ok? && name in ParseParams(Some(text)).value
    ensures exists k :: 0 <= k < |Split(text, ';')| && NamesParameter(Split(text, ';')[k], name)
    ensures ParseParams(Some(text)).value[name].Values? ==> |ParseParams(Some(text)).value[name].values| >= 2
  {
    var segments := Split(text, ';');
    assert ParseParams(Some(text)).value == ToDict(SegmentPairs(segments).value);
    SegmentDictSound(segments, name);
  }

  /** The position of the last pair with a name. */
  lemma LastWithName(pairs: seq<(string, ParamValue)>, name: string, j: nat) returns (last: nat)
    requires j < |pairs| && pairs[j].0 == name
    ensures j <= last < |pairs| && pairs[last].0 == name
    ensures forall k :: last < k < |pairs| ==> pairs[k].0 != name
    decreases |pairs| - j
  {
    if exists k :: j < k < |pairs| && pairs[k].0 == name {
      var k :| j < k < |pairs| && pairs[k].0 == name;
      last := LastWithName(pairs, name, k);
    } else {
      last := j;
    }
  }

  // ---------------------------------------------------------------------
  // The parameter format, and the round trip through `get_params`
  // ---------------------------------------------------------------------

  /** The integers written out, one per element. */
  function ShowInts(vs: seq<int>): (ts: seq<string>)
    ensures |ts| == |vs|
    ensures forall i :: 0 <= i < |vs| ==> ts[i] == ShowInt(vs[i])
  {
    if vs == [] then [] else [ShowInt(vs[0])] + ShowInts(vs[1..])
  }

  /** `name:v1,v2,...`. */
  function FormatSegment(name: string, vs: seq<int>): string
    requires |vs| >= 1
  {
    name + [':'] + Join(ShowInts(vs), ',')
  }

  /** A name that the format can carry: ASCII, no `:` and no `;`. */
  predicate GoodName(name: string) {
    IsAscii(name) && ':' !in name && ';' !in name
  }

  /** A list of parameters the format can carry. */
  predicate Writable(params: seq<(string, seq<int>)>) {
    forall i :: 0 <= i < |params| ==> GoodName(params[i].0) && |params[i].1| >= 1
  }

  lemma {:induction false} ParseShowInts(vs: seq<int>)
    ensures ParseInts(ShowInts(vs)) == Ok(vs)
  {
    if vs != [] {
      var texts := ShowInts(vs);
      ParseShowInt(vs[0]);
      ParseShowInts(vs[1..]);
      assert texts[0] == ShowInt(vs[0]);
      assert texts[1..] == ShowInts(vs[1..]);
      assert ParseInts(texts) == Ok([vs[0]] + vs[1..]);
      assert [vs[0]] + vs[1..] == vs;
    }
  }

  /** A character that no written integer contains. */
  lemma ShowIntsAvoid(vs: seq<int>, c: char)
    requires c != '-' && !('0' <= c <= '9')
    ensures forall i :: 0 <= i < |vs| ==> c !in ShowInts(vs)[i]
  {
  }

  /** `c` is in a join only if it is the separator or is in a piece. */
  lemma {:induction false} JoinAvoids(parts: seq<string>, sep: char, c: char)
    requires |parts| >= 1 && c != sep
    requires forall i :: 0 <= i < |parts| ==> c !in parts[i]
    ensures c !in Join(parts, sep)
  {
    if |parts| > 1 {
      JoinAvoids(parts[1..], sep, c);
    }
  }

  /** Reading one written segment gives back its name and its collapsed values. */
  lemma ParseFormatSegment(name: string, vs: seq<int>)
    requires GoodName(name) && |vs| >= 1
    ensures ParseSegment(FormatSegment(name, vs)) == Ok(Some((name, Collapse(vs))))
  {
    var values := Join(ShowInts(vs), ',');
    ShowIntsAvoid(vs, ',');
    ShowIntsAvoid(vs, ':');
    JoinAvoids(ShowInts(vs), ',', ':');
    SplitAfterPiece(name, ':', values);
    SplitWithoutSeparator(values, ':');
    SplitJoin(ShowInts(vs), ',');
    ParseShowInts(vs);
  }

  function FormatSegments(params: seq<(string, seq<int>)>): (segments: seq<string>)
    requires Writable(params)
    ensures |segments| == |params|
    ensures forall i :: 0 <= i < |params| ==> segments[i] == FormatSegment(params[i].0, params[i].1)
  {
    if params == [] then [] else FormatSegments(params[..|params| - 1]) + [FormatSegment(params[|params| - 1].0, params[|params| - 1].1)]
  }

  /** The text of a rule's parameters: the segments joined by `;`. */
  function FormatParams(params: seq<(string, seq<int>)>): string
    requires |params| >= 1 && Writable(params)
  {
    Join(FormatSegments(params), ';')
  }

  function Collapsed(params: seq<(string, seq<int>)>): (pairs: seq<(string, ParamValue)>)
    requires Writable(params)
    ensures |pairs| == |params|
    ensures forall i :: 0 <= i < |params| ==> pairs[i] == (params[i].0, Collapse(params[i].1))
  {
    if params == [] then [] else Collapsed(params[..|params| - 1]) + [(params[|params| - 1].0, Collapse(params[|params| - 1].1))]
  }

  lemma {:induction false} SegmentPairsOfFormatted(params: seq<(string, seq<int>)>)
    requires Writable(params)
    ensures SegmentPairs(FormatSegments(params)) == Ok(Collapsed(params))
  {
    if params != [] {
      var init := params[..|params| - 1];
      var last := params[|params| - 1];
      SegmentPairsOfFormatted(init);
      assert FormatSegments(params)[..|params| - 1] == FormatSegments(init);
      ParseFormatSegment(last.0, last.1);
    }
  }

  /** Written parameters read back as `dict` of their collapsed values. */
  lemma ParseFormatParams(params: seq<(string, seq<int>)>)
    requires |params| >= 1 && Writable(params)
    ensures ParseParams(Some(FormatParams(params))) == Ok(ToDict(Collapsed(params)))
  {
    var segments := FormatSegments(params);
    forall i | 0 <= i < |segments| ensures ';' !in segments[i] {
      var vs := params[i].1;
      ShowIntsAvoid(vs, ';');
      JoinAvoids(ShowInts(vs), ',', ';');
    }
    SplitJoin(segments, ';');
    SegmentPairsOfFormatted(params);
  }

  /** The parameters of the documented example, as a list of names and values. */
  function ExampleParams(): (params: seq<(string, seq<int>)>)
    ensures |params| >= 1 && Writable(params)
  {
    [("count", [1]), ("bysecond", [1]), ("byminute", [1, 2, 4, 5])]
  }

  lemma JoinCons(p: string, rest: seq<string>, sep: char)
    requires |rest| >= 1
    ensures Join([p] + rest, sep) == p + [sep] + Join(rest, sep)
  {
    assert ([p] + rest)[1..] == rest;
  }

  lemma ExampleInts()
    ensures ShowInts([1]) == ["1"]
    ensures ShowInts([1, 2, 4, 5]) == ["1", "2", "4", "5"]
  {
    ShownDigits();
    assert [1, 2, 4, 5][1..] == [2, 4, 5];
    assert [2, 4, 5][1..] == [4, 5];
    assert [4, 5][1..] == [5];
  }

  lemma ExampleValues()
    ensures Join(ShowInts([1]), ',') == "1"
    ensures Join(ShowInts([1, 2, 4, 5]), ',') == "1,2,4,5"
  {
    ExampleInts();
    JoinCons("4", ["5"], ',');
    JoinCons("2", ["4", "5"], ',');
    JoinCons("1", ["2", "4", "5"], ',');
    assert "1" + [','] + ("2" + [','] + ("4" + [','] + "5")) == "1,2,4,5";
  }

  lemma ExampleSegments()
    ensures FormatSegments(ExampleParams()) == ["count:1", "bysecond:1", "byminute:1,2,4,5"]
  {
    ExampleValues();
    assert FormatSegment("count", [1]) == "count:1";
    assert FormatSegment("bysecond", [1]) == "bysecond:1";
    assert FormatSegment("byminute", [1, 2, 4, 5]) == "byminute:1,2,4,5";
  }

  lemma ExampleText()
    ensures FormatParams(ExampleParams()) == "count:1;bysecond:1;byminute:1,2,4,5"
  {
    var a, b, c := "count:1", "bysecond:1", "byminute:1,2,4,5";
    calc {
      FormatParams(ExampleParams());
      Join(FormatSegments(ExampleParams()), ';');
      { ExampleSegments(); }
      Join([a] + [b, c], ';');
      { JoinCons(a, [b, c], ';'); }
      a + [';'] + Join([b] + [c], ';');
      { JoinCons(b, [c], ';'); }
      a + [';'] + (b + [';'] + c);
      { ExampleConcat(); }
      "count:1;bysecond:1;byminute:1,2,4,5";
    }
  }

  lemma ExampleConcat()
    ensures "count:1" + [';'] + ("bysecond:1" + [';'] + "byminute:1,2,4,5") == "count:1;bysecond:1;byminute:1,2,4,5"
  {
  }

  lemma ExampleDict()
    ensures ToDict(Collapsed(ExampleParams())) ==
      map["count" := Scalar(1), "bysecond" := Scalar(1), "byminute" := Values([1, 2, 4, 5])]
  {
    var pairs := Collapsed(ExampleParams());
    assert pairs == [("count", Scalar(1)), ("bysecond", Scalar(1)), ("byminute", Values([1, 2, 4, 5]))];
    var p1, p2 := pairs[..1], pairs[..2];
    assert p2[..1] == p1 && pairs[..2] == p2 && p1[..0] == [];
    assert ToDict(p1) == map["count" := Scalar(1)];
    assert ToDict(p2) == map["count" := Scalar(1), "bysecond" := Scalar(1)];
  }

  /** The documented example: two scalars and a four-element list. */
  lemma DocumentedExample()
    ensures ParseParams(Some("count:1;bysecond:1;byminute:1,2,4,5")) ==
      Ok(map["count" := Scalar(1), "bysecond" := Scalar(1), "byminute" := Values([1, 2, 4, 5])])
  {
    ExampleText();
    ExampleDict();
    ParseFormatParams(ExampleParams());
  }

  lemma ShownDigits()
    ensures ShowInt(1) == "1" && ShowInt(2) == "2" && ShowInt(4) == "4" && ShowInt(5) == "5"
  {
  }

}
