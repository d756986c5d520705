/** Argument validation of the WMM constructor, `_guard_clauses`
    (ahrs/utils/wmm.py:398-409). */
module Guard {
  import opened Outcomes

  /** A numeric argument: an int or float, or a value of any other type. */
  datatype Arg = Number(x: real) | NotNumber

  /** The frame argument: a str, or a value of any other type. */
  datatype FrameArg = Text(s: string) | NotText

  function Abs(x: real): (a: real)
    ensures a >= 0.0 && (a == x || a == -x)
  {
    if x < 0.0 then -x else x
  }

  /** str.upper() restricted to ASCII letters. */
  function UpperChar(ch: char): char {
    if 'a' <= ch <= 'z' then (ch as int - 32) as char else ch
  }

  function LowerChar(ch: char): char {
    if 'A' <= ch <= 'Z' then (ch as int + 32) as char else ch
  }

  function Upper(s: string): (u: string)
    ensures |u| == |s|
    ensures forall i :: 0 <= i < |s| ==> u[i] == UpperChar(s[i])
  {
    seq(|s|, i requires 0 <= i < |s| => UpperChar(s[i]))
  }

  predicate ValidFrame(s: string) {
    Upper(s) == "NED" || Upper(s) == "ENU"
  }

  /** `s` spells `word` (upper-case ASCII) up to the case of each letter. */
  predicate SameIgnoringCase(s: string, word: string) {
    |s| == |word| && forall i :: 0 <= i < |s| ==> s[i] == word[i] || s[i] == LowerChar(word[i])
  }

  /** A frame is accepted exactly when it is NED or ENU in any mixture of cases. */
  lemma FrameAcceptedIffCaseVariant(s: string)
    ensures ValidFrame(s) <==> SameIgnoringCase(s, "NED") || SameIgnoringCase(s, "ENU")
  {
    if SameIgnoringCase(s, "NED") {
      assert Upper(s) == "NED";
    }
    if SameIgnoringCase(s, "ENU") {
      assert Upper(s) == "ENU";
    }
  }

  /** _guard_clauses: the type checks (latitude, longitude, height, then frame) come
      first, then |latitude| <= 90, |longitude| <= 180 and the frame name, each failure
      being reported by the first check that fails. */
  function GuardClauses(latitude: Arg, longitude: Arg, height: Arg, frame: FrameArg): (r: Result<()>)
    ensures r.Ok? <==>
      && latitude.Number? && longitude.Number? && height.Number? && frame.Text?
      && Abs(latitude.x) <= 90.0 && Abs(longitude.x) <= 180.0 && ValidFrame(frame.s)
    ensures !(latitude.Number? && longitude.Number? && height.Number? && frame.Text?) ==>
      r == Err(InvalidType)
    ensures latitude.Number? && longitude.Number? && height.Number? && frame.Text? ==>
      && (Abs(latitude.x) > 90.0 ==> r == Err(InvalidLatitude))
      && (Abs(latitude.x) <= 90.0 && Abs(longitude.x) > 180.0 ==> r == Err(InvalidLongitude))
      && (Abs(latitude.x) <= 90.0 && Abs(longitude.x) <= 180.0 && !ValidFrame(frame.s) ==> r == Err(InvalidFrame))
  {
    if !latitude.Number? || !longitude.Number? || !height.Number? then Err(InvalidType)
    else if !frame.Text? then Err(InvalidType)
    else if Abs(latitude.x) > 90.0 then Err(InvalidLatitude)
    else if Abs(longitude.x) > 180.0 then Err(InvalidLongitude)
    else if !ValidFrame(frame.s) then Err(InvalidFrame)
    else Ok(())
  }

  /** The bounds are inclusive and the frame is case-insensitive. */
  lemma BoundariesAccepted(h: real)
    ensures GuardClauses(Number(90.0), Number(-180.0), Number(h), Text("ned")).Ok?
    ensures GuardClauses(Number(-90.0), Number(180.0), Number(h), Text("Enu")).Ok?
    ensures GuardClauses(Number(90.5), Number(0.0), Number(h), Text("NED")) == Err(InvalidLatitude)
    ensures GuardClauses(Number(0.0), Number(-180.5), Number(h), Text("NED")) == Err(InvalidLongitude)
    ensures GuardClauses(Number(0.0), Number(0.0), Number(h), Text("NEU")) == Err(InvalidFrame)
  {
    assert Upper("ned") == "NED";
    assert Upper("Enu") == "ENU";
    assert Upper("NEU") == "NEU";
  }
}
