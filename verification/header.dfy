/** get_properties (ahrs/utils/wmm.py:516-521): the first line of a COF file, split on
    whitespace, gives the epoch (first token, as a float), the model name and the
    release date (second and third tokens, when present). */
module Header {
  import opened Outcomes

  /** Characters for which Python's str.isspace() holds; str.split() cuts at them. */
  predicate IsSpace(ch: char) {
    || ch in {' ', '\t', '\n', '\r', '\U{0B}', '\U{0C}', '\U{1C}', '\U{1D}', '\U{1E}', '\U{1F}'}
    || ch in {'\U{85}', '\U{A0}', '\U{1680}', '\U{2028}', '\U{2029}', '\U{202F}', '\U{205F}', '\U{3000}'}
    || ('\U{2000}' <= ch <= '\U{200A}')
  }

  /** A token str.split() can produce: non-empty and free of whitespace. */
  predicate IsToken(t: string) {
    |t| > 0 && forall i :: 0 <= i < |t| ==> !IsSpace(t[i])
  }

  /** The longest whitespace-free prefix of `s`. */
  function Word(s: string): (w: string)
    ensures w <= s
    ensures forall i :: 0 <= i < |w| ==> !IsSpace(w[i])
    ensures |w| < |s| ==> IsSpace(s[|w|])
  {
    if |s| == 0 || IsSpace(s[0]) then "" else [s[0]] + Word(s[1..])
  }

  /** str.split() without arguments (which also strips): the maximal whitespace-free runs. */
  function Split(s: string): (ts: seq<string>)
    ensures forall t :: t in ts ==> IsToken(t)
    decreases |s|
  {
    if |s| == 0 then []
    else if IsSpace(s[0]) then Split(s[1..])
    else
      var w := Word(s);
      [w] + Split(s[|w|..])
  }

  /** Tokens separated by single blanks: how a header line is written. */
  function JoinWords(ts: seq<string>): string {
    if |ts| == 0 then ""
    else if |ts| == 1 then ts[0]
    else ts[0] + " " + JoinWords(ts[1..])
  }

  lemma {:induction false} WordOfToken(t: string, rest: string)
    requires forall i :: 0 <= i < |t| ==> !IsSpace(t[i])
    requires |rest| == 0 || IsSpace(rest[0])
    ensures Word(t + rest) == t
    decreases |t|
  {
    if |t| > 0 {
      assert (t + rest)[1..] == t[1..] + rest;
      WordOfToken(t[1..], rest);
    }
  }

  /** Splitting a blank-separated line gives back exactly its tokens. */
  lemma {:induction false} SplitJoin(ts: seq<string>)
    requires forall t :: t in ts ==> IsToken(t)
    ensures Split(JoinWords(ts)) == ts
  {
    if |ts| == 1 {
      assert ts[0] in ts;
      assert ts[0] + "" == ts[0];
      WordOfToken(ts[0], "");
      assert ts[0][|ts[0]|..] == "";
      assert Split("") == [];
    } else if |ts| > 1 {
      var rest := JoinWords(ts[1..]);
      assert ts[0] in ts;
      var line := ts[0] + " " + rest;
      assert line == ts[0] + (" " + rest);
      WordOfToken(ts[0], " " + rest);
      assert line[|ts[0]|..] == " " + rest;
      assert (" " + rest)[1..] == rest;
      SplitJoin(ts[1..]);
      assert ts == [ts[0]] + ts[1..];
    }
  }

  /** text.split('\n')[0] */
  function FirstLine(text: string): (line: string)
    ensures line <= text
    ensures '\n' !in line
    ensures |line| < |text| ==> text[|line|] == '\n'
  {
    if |text| == 0 || text[0] == '\n' then "" else [text[0]] + FirstLine(text[1..])
  }

  lemma {:induction false} FirstLineOf(line: string, rest: string)
    requires '\n' !in line
    ensures FirstLine(line + "\n" + rest) == line
    decreases |line|
  {
    if |line| > 0 {
      assert (line + "\n" + rest)[1..] == line[1..] + "\n" + rest;
      FirstLineOf(line[1..], rest);
    }
  }

  predicate EndsWith(s: string, suffix: string) {
    |s| >= |suffix| && s[|s| - |suffix|..] == suffix
  }

  predicate IsDigit(ch: char) {
    '0' <= ch <= '9'
  }

  predicate AllDigits(s: string) {
    forall i :: 0 <= i < |s| ==> IsDigit(s[i])
  }

  function DigitsValue(s: string): (v: nat)
    requires AllDigits(s)
  {
    if |s| == 0 then 0
    else DigitsValue(s[..|s| - 1]) * 10 + (s[|s| - 1] as int - '0' as int)
  }

  function Pow10(k: nat): (p: nat)
    ensures p >= 1
  {
    if k == 0 then 1 else 10 * Pow10(k - 1)
  }

  /** Position of the first '.' in `s`, or |s| when there is none. */
  function DotIndex(s: string): (i: nat)
    ensures i <= |s|
    ensures i < |s| ==> s[i] == '.'
    ensures forall j :: 0 <= j < i ==> s[j] != '.'
  {
    if |s| == 0 || s[0] == '.' then 0 else 1 + DotIndex(s[1..])
  }

  /** Python's float() on plain decimal notation: an optional sign, digits, and an
      optional fraction after a '.', with at least one digit in all. */
  function ParseFloat(t: string): (r: Option<real>)
    ensures |t| == 0 ==> r.None?
    ensures r.Some? && t[0] != '-' ==> r.value >= 0.0
  {
    if |t| > 0 && (t[0] == '-' || t[0] == '+') then
      match ParseUnsigned(t[1..])
      case None => None
      case Some(v) => Some(if t[0] == '-' then -v else v)
    else ParseUnsigned(t)
  }

  function ParseUnsigned(t: string): (r: Option<real>)
    ensures r.Some? ==> r.value >= 0.0
  {
    var p := DotIndex(t);
    var whole := t[..p];
    var frac := if p < |t| then t[p + 1..] else "";
    if AllDigits(whole) && AllDigits(frac) && |whole| + |frac| > 0 then
      Some(DigitsValue(whole) as real + DigitsValue(frac) as real / Pow10(|frac|) as real)
    else None
  }

  /** Decimal digits of a natural number. */
  function ShowNat(k: nat): (s: string)
    ensures |s| > 0 && AllDigits(s)
  {
    if k < 10 then [('0' as int + k) as char]
    else ShowNat(k / 10) + [('0' as int + k % 10) as char]
  }

  lemma {:induction false} ShowNatValue(k: nat)
    ensures DigitsValue(ShowNat(k)) == k
  {
    if k >= 10 {
      var s := ShowNat(k);
      assert s[..|s| - 1] == ShowNat(k / 10);
      ShowNatValue(k / 10);
    }
  }

  lemma {:induction false} DotIndexAfter(s: string, rest: string)
    requires forall j :: 0 <= j < |s| ==> s[j] != '.'
    ensures DotIndex(s + rest) == |s| + DotIndex(rest)
    decreases |s|
  {
    if |s| > 0 {
      assert (s + rest)[0] == s[0];
      assert (s + rest)[1..] == s[1..] + rest;
      DotIndexAfter(s[1..], rest);
    } else {
      assert s + rest == rest;
    }
  }

  /** A year written as "<digits>.0" parses back to that year. */
  lemma ParseShownYear(k: nat)
    ensures ParseFloat(ShowNat(k) + ".0") == Some(k as real)
  {
    var s := ShowNat(k);
    var t := s + ".0";
    assert forall j :: 0 <= j < |s| ==> s[j] != '.';
    DotIndexAfter(s, ".0");
    assert t[..|s|] == s;
    assert t[|s| + 1..] == "0";
    ShowNatValue(k);
    assert DigitsValue("0") == 0;
  }

  /** The header fields; a missing model or release date stays unset. */
  datatype Properties = Properties(epoch: real, model: Option<string>, modelDate: Option<string>)

  /** get_properties on a file name and the file's text. */
  function GetProperties(fileName: string, text: string): (r: Result<Properties>)
    ensures !EndsWith(fileName, ".COF") <==> r == Err(NotCofFile)
    ensures EndsWith(fileName, ".COF") && |Split(FirstLine(text))| == 0 ==> r == Err(MissingEpoch)
    ensures EndsWith(fileName, ".COF") && |Split(FirstLine(text))| > 0 ==>
      (r.Ok? <==> ParseFloat(Split(FirstLine(text))[0]).Some?)
    ensures EndsWith(fileName, ".COF") && |Split(FirstLine(text))| > 0 && ParseFloat(Split(FirstLine(text))[0]).None? ==>
      r == Err(BadEpoch)
    ensures r.Ok? ==> var v := Split(FirstLine(text));
      && |v| > 0
      && Some(r.value.epoch) == ParseFloat(v[0])
      && r.value.model == (if |v| > 1 then Some(v[1]) else None)
      && r.value.modelDate == (if |v| > 2 then Some(v[2]) else None)
  {
    if !EndsWith(fileName, ".COF") then Err(NotCofFile)
    else
      var v := Split(FirstLine(text));
      if |v| == 0 then Err(MissingEpoch)
      else match ParseFloat(v[0])
        case None => Err(BadEpoch)
        case Some(e) => Ok(Properties(e, if |v| > 1 then Some(v[1]) else None, if |v| > 2 then Some(v[2]) else None))
  }

  /** A header written as "<year>.0 <model> <date>" followed by the data lines is read
      back as exactly that epoch, model and release date. */
  lemma HeaderRoundTrip(fileName: string, year: nat, model: string, date: string, rest: string)
    requires EndsWith(fileName, ".COF")
    requires IsToken(model) && IsToken(date)
    ensures var line := JoinWords([ShowNat(year) + ".0", model, date]);
      GetProperties(fileName, line + "\n" + rest) == Ok(Properties(year as real, Some(model), Some(date)))
  {
    var y := ShowNat(year) + ".0";
    assert IsToken(y);
    var ts := [y, model, date];
    assert JoinWords(ts[1..]) == model + " " + date;
    var line := JoinWords(ts);
    assert forall i :: 0 <= i < |line| ==> line[i] != '\n';
    FirstLineOf(line, rest);
    SplitJoin(ts);
    ParseShownYear(year);
  }

  /** Both shipped coefficient files pass the extension check. */
  lemma ShippedNamesAreCof()
    ensures EndsWith("WMM2015/WMM.COF", ".COF") && EndsWith("WMM2020/WMM.COF", ".COF")
  {
  }
}
