/** The `-h` argument: a comma-separated list of hours to book, each read
    as a decimal number of the 24-hour clock between 6 and 21, appended to
    the program's list `hoursToReserve` as it is read; and the display of
    that list as a comma-separated string again. */
module Hours {
  import opened GoLib

  /** The hours the sports centre lets one book: 6 o'clock to 21 o'clock. */
  predicate ValidHour(h: int) { 6 <= h <= 21 }

  /** Why `parseHoursToReserve` refused its input; each carries the trimmed
      token its message quotes. */
  datatype HourError =
    | NoHours                      // the argument is empty
    | Unreadable(token: string)    // strconv.Atoi failed
    | Negative(token: string)      // below zero
    | Closed(token: string)        // exactly 22: the hall has closed
    | OutOfHours(token: string)    // any other hour outside 6..21

  /** The verdict on one token. */
  datatype HourCheck = Hour(h: int) | Bad(error: HourError)

  /** One token as the loop body of `parseHoursToReserve` judges it. */
  function CheckHour(raw: string): (c: HourCheck)
  {
    var t := TrimSpaces(raw);
    match Atoi(t)
    case None => Bad(Unreadable(t))
    case Some(h) =>
      if h < 0 then Bad(Negative(t))
      else if h < 6 || h > 21 then (if h == 22 then Bad(Closed(t)) else Bad(OutOfHours(t)))
      else Hour(h)
  }

  /** A token is accepted exactly when, once its spaces are trimmed, it is a
      decimal number between 6 and 21; each refusal names the reason. */
  lemma CheckHourMeaning(raw: string)
    ensures CheckHour(raw).Hour? <==>
      Atoi(TrimSpaces(raw)).Some? && ValidHour(Atoi(TrimSpaces(raw)).value)
    ensures CheckHour(raw).Hour? ==> CheckHour(raw).h == Atoi(TrimSpaces(raw)).value
    ensures CheckHour(raw) == Bad(Unreadable(TrimSpaces(raw))) <==> Atoi(TrimSpaces(raw)).None?
    ensures CheckHour(raw) == Bad(Closed(TrimSpaces(raw))) <==> Atoi(TrimSpaces(raw)) == Some(22)
    ensures CheckHour(raw) == Bad(Negative(TrimSpaces(raw))) <==>
      Atoi(TrimSpaces(raw)).Some? && Atoi(TrimSpaces(raw)).value < 0
    ensures CheckHour(raw) == Bad(OutOfHours(TrimSpaces(raw))) <==>
      Atoi(TrimSpaces(raw)).Some? &&
      (0 <= Atoi(TrimSpaces(raw)).value < 6 || Atoi(TrimSpaces(raw)).value > 22)
  {
  }

  /** What a run of the parser leaves behind: the hours it appended, and
      the error it stopped on, if any. */
  datatype ParseRun = ParseRun(appended: seq<int>, err: Option<HourError>)

  /** The verdicts on the tokens `ts`, in order. */
  function Checks(ts: seq<string>): (vs: seq<HourCheck>)
    ensures |vs| == |ts|
  {
    seq(|ts|, i requires 0 <= i < |ts| => CheckHour(ts[i]))
  }

  /** The parser's loop over the verdicts on its tokens, one at a time: an
      accepted hour is appended, the first refused token stops the run. */
  function ParseVerdicts(vs: seq<HourCheck>): (run: ParseRun)
  {
    if |vs| == 0 then ParseRun([], None)
    else
      var before := ParseVerdicts(vs[..|vs| - 1]);
      if before.err.Some? then before
      else match vs[|vs| - 1]
        case Hour(h) => ParseRun(before.appended + [h], None)
        case Bad(e) => ParseRun(before.appended, Some(e))
  }

  /** `parseHoursToReserve` on the argument string `s`. */
  function ParseHours(s: string): (run: ParseRun)
  {
    if s == "" then ParseRun([], Some(NoHours)) else ParseVerdicts(Checks(Split(s)))
  }

  predicate AllHours(vs: seq<HourCheck>)
  {
    forall i :: 0 <= i < |vs| ==> vs[i].Hour?
  }

  /** The hours of verdicts that all accept, in order. */
  function HoursOf(vs: seq<HourCheck>): (hs: seq<int>)
    requires AllHours(vs)
    ensures |hs| == |vs|
    ensures forall i :: 0 <= i < |vs| ==> hs[i] == vs[i].h
  {
    if |vs| == 0 then [] else HoursOf(vs[..|vs| - 1]) + [vs[|vs| - 1].h]
  }

  /** When every token is accepted the run succeeds and appends one hour
      per token, in input order. */
  lemma {:induction false} ParseAllAccepted(vs: seq<HourCheck>)
    requires AllHours(vs)
    ensures ParseVerdicts(vs) == ParseRun(HoursOf(vs), None)
  {
    if |vs| > 0 {
      ParseAllAccepted(vs[..|vs| - 1]);
    }
  }

  /** A run that succeeds has accepted every token. */
  lemma {:induction false} ParseSucceededAccepted(vs: seq<HourCheck>)
    requires ParseVerdicts(vs).err.None?
    ensures AllHours(vs)
  {
    if |vs| > 0 {
      ParseSucceededAccepted(vs[..|vs| - 1]);
      forall i | 0 <= i < |vs| ensures vs[i].Hour? {
        if i < |vs| - 1 { assert vs[i] == vs[..|vs| - 1][i]; }
      }
    }
  }

  /** Once a prefix of the tokens has failed, the later tokens change
      nothing. */
  lemma {:induction false} ParseErrorSticks(vs: seq<HourCheck>, j: nat)
    requires j <= |vs| && ParseVerdicts(vs[..j]).err.Some?
    ensures ParseVerdicts(vs) == ParseVerdicts(vs[..j])
    decreases |vs| - j
  {
    if j < |vs| {
      var init := vs[..|vs| - 1];
      assert init[..j] == vs[..j];
      ParseErrorSticks(init, j);
    } else {
      assert vs[..j] == vs;
    }
  }

  /** The first refused token stops the run with its error, and the hours
      of the tokens before it stay appended. */
  lemma ParseStopsAtFirstBad(vs: seq<HourCheck>, k: nat)
    requires k < |vs| && AllHours(vs[..k]) && vs[k].Bad?
    ensures ParseVerdicts(vs) == ParseRun(HoursOf(vs[..k]), Some(vs[k].error))
  {
    ParseAllAccepted(vs[..k]);
    assert vs[..k + 1][..k] == vs[..k];
    ParseErrorSticks(vs, k + 1);
  }

  /** One more token: an accepted one extends the run, a refused one ends
      the whole run. */
  lemma ParseStep(vs: seq<HourCheck>, k: nat)
    requires k < |vs| && ParseVerdicts(vs[..k]).err.None?
    ensures vs[k].Hour? ==>
      ParseVerdicts(vs[..k + 1]) == ParseRun(ParseVerdicts(vs[..k]).appended + [vs[k].h], None)
    ensures vs[k].Bad? ==>
      ParseVerdicts(vs) == ParseRun(ParseVerdicts(vs[..k]).appended, Some(vs[k].error))
  {
    assert vs[..k + 1][..k] == vs[..k];
    if vs[k].Bad? {
      ParseErrorSticks(vs, k + 1);
    }
  }

  /** The index of the first refused token. */
  lemma FirstBad(vs: seq<HourCheck>) returns (k: nat)
    requires !AllHours(vs)
    ensures k < |vs| && AllHours(vs[..k]) && vs[k].Bad?
  {
    k := 0;
    while vs[k].Hour?
      invariant k < |vs| && AllHours(vs[..k])
      decreases |vs| - k
    {
      assert vs[..k + 1] == vs[..k] + [vs[k]];
      k := k + 1;
    }
  }

  /** The whole parser: it fails on the empty string; it succeeds exactly
      when every comma-separated token is a bookable hour, and then it has
      appended exactly those hours in order; when it fails, it fails on the
      first refused token, and the hours before that token have been
      appended. */
  lemma ParseHoursMeaning(s: string)
    ensures s == "" ==> ParseHours(s) == ParseRun([], Some(NoHours))
    ensures ParseHours(s).err.None? <==> s != "" && AllHours(Checks(Split(s)))
    ensures ParseHours(s).err.None? ==>
      ParseHours(s).appended == HoursOf(Checks(Split(s))) &&
      |ParseHours(s).appended| == |Split(s)| &&
      forall i :: 0 <= i < |Split(s)| ==>
        Atoi(TrimSpaces(Split(s)[i])) == Some(ParseHours(s).appended[i]) &&
        ValidHour(ParseHours(s).appended[i])
    ensures s != "" && ParseHours(s).err.Some? ==>
      exists k :: 0 <= k < |Split(s)| && AllHours(Checks(Split(s))[..k]) &&
        Checks(Split(s))[k].Bad? &&
        ParseHours(s) == ParseRun(HoursOf(Checks(Split(s))[..k]), Some(Checks(Split(s))[k].error))
  {
    if s != "" {
      var vs := Checks(Split(s));
      if AllHours(vs) {
        ParseAllAccepted(vs);
        forall i | 0 <= i < |Split(s)|
          ensures Atoi(TrimSpaces(Split(s)[i])) == Some(HoursOf(vs)[i]) && ValidHour(HoursOf(vs)[i])
        {
          CheckHourMeaning(Split(s)[i]);
        }
      } else {
        var k := FirstBad(vs);
        ParseStopsAtFirstBad(vs, k);
      }
      if ParseVerdicts(vs).err.None? {
        ParseSucceededAccepted(vs);
      }
    }
  }

  /** The program's parsed arguments: `hoursToReserve` is the package-level
      slice that `parseHoursToReserve` appends to. */
  class HourArgs {
    var hoursToReserve: seq<int>

    constructor ()
      ensures hoursToReserve == []
    {
      hoursToReserve := [];
    }

    /** `parseHoursToReserve`: reads `hoursToReserveStr` token by token,
        appending each bookable hour to `hoursToReserve`, and stops at the
        first token it refuses. */
    method ParseHoursToReserve(hoursToReserveStr: string) returns (ok: bool, err: Option<HourError>)
      modifies this
      ensures hoursToReserve == old(hoursToReserve) + ParseHours(hoursToReserveStr).appended
      ensures err == ParseHours(hoursToReserveStr).err
      ensures ok <==> err.None?
    {
      if hoursToReserveStr == "" {
        return false, Some(NoHours);
      }
      var hours := Split(hoursToReserveStr);
      ghost var vs := Checks(hours);
      assert ParseHours(hoursToReserveStr) == ParseVerdicts(vs);
      var k := 0;
      while k < |hours|
        invariant 0 <= k <= |hours|
        invariant ParseVerdicts(vs[..k]).err.None?
        invariant hoursToReserve == old(hoursToReserve) + ParseVerdicts(vs[..k]).appended
      {
        assert vs[k] == CheckHour(hours[k]);
        var hour := TrimSpaces(hours[k]);
        var hourInt := Atoi(hour);
        if hourInt.None? {
          assert vs[k] == Bad(Unreadable(hour));
          ParseStep(vs, k);
          return false, Some(Unreadable(hour));
        }
        if hourInt.value < 0 {
          assert vs[k] == Bad(Negative(hour));
          ParseStep(vs, k);
          return false, Some(Negative(hour));
        }
        if hourInt.value < 6 || hourInt.value > 21 {
          var cerr := OutOfHours(hour);
          if hourInt.value == 22 {
            cerr := Closed(hour);
          }
          assert vs[k] == Bad(cerr);
          ParseStep(vs, k);
          return false, Some(cerr);
        }
        assert vs[k] == Hour(hourInt.value);
        ParseStep(vs, k);
        hoursToReserve := hoursToReserve + [hourInt.value];
        k := k + 1;
      }
      assert vs[..k] == vs;
      return true, None;
    }
  }

  // ---------------------------------------------------------------- display

  /** Each hour spelt out in decimal. */
  function Decimal(hs: seq<int>): (ts: seq<string>)
    ensures |ts| == |hs|
  {
    seq(|hs|, i requires 0 <= i < |hs| => Itoa(hs[i]))
  }

  /** A bookable hour in decimal has no comma and is read back as itself. */
  lemma ReadHour(h: int)
    requires ValidHour(h)
    ensures NoComma(Itoa(h)) && CheckHour(Itoa(h)) == Hour(h)
  {
    assert Itoa(h) == NatDigits(h);
    TrimNoSpace(Itoa(h));
    AtoiItoa(h);
  }

  /** The parser reads back what `joinIntSlice` writes for a list of
      bookable hours: a non-empty list is parsed into itself, and the empty
      list becomes the empty string, which the parser refuses. */
  lemma JoinParseRoundTrip(hs: seq<int>)
    requires forall i :: 0 <= i < |hs| ==> ValidHour(hs[i])
    ensures ParseHours(Join(Decimal(hs))) ==
      ParseRun(hs, if hs == [] then Some(NoHours) else None)
  {
    if hs != [] {
      var ts := Decimal(hs);
      forall k | 0 <= k < |ts| ensures NoComma(ts[k]) && CheckHour(ts[k]) == Hour(hs[k]) {
        ReadHour(hs[k]);
      }
      JoinSplit(ts);
      assert |ts[0]| >= 1;
      assert Join(ts) != "";
      var vs := Checks(ts);
      ParseAllAccepted(vs);
      assert HoursOf(vs) == hs;
    }
  }

  /** `joinIntSlice`: the hours spelt out in a fresh slice, then joined with
      commas. */
  method JoinIntSlice(s: seq<int>) returns (r: string)
    ensures r == Join(Decimal(s))
    ensures (forall i :: 0 <= i < |s| ==> ValidHour(s[i])) ==>
      ParseHours(r).appended == s && (ParseHours(r).err.None? <==> |s| > 0)
  {
    if |s| == 0 {
      return "";
    }
    var ss := new string[|s|];
    for i := 0 to |s|
      invariant forall j :: 0 <= j < i ==> ss[j] == Itoa(s[j])
    {
      ss[i] := Itoa(s[i]);
    }
    assert ss[..] == Decimal(s);
    r := Join(ss[..]);
    if forall i :: 0 <= i < |s| ==> ValidHour(s[i]) {
      JoinParseRoundTrip(s);
    }
  }
}
