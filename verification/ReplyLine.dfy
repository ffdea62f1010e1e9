/**
 * A probe reply at both ends of the pipe: printed by mtr-packet (packet/probe.c), parsed by the
 * front end (ui/cmdpipe.c).
 */
module ReplyLine {
  import opened CInt
  import opened Text
  import opened CmdParse
  import opened ProbeCommand
  import opened Options
  import opened CommandLine
  import opened Mpls

  const MAXLABELS := 8
  const MAX_VALUES := 4 * MAXLABELS

  // ----- the list of labels as text -----

  function Fields(l: Label): seq<int> { [l.number, l.trafficClass, l.bottomOfStack, l.ttl] }

  function Flatten(ls: seq<Label>): (vs: seq<int>)
    ensures |vs| == 4 * |ls|
  {
    if ls == [] then [] else Fields(ls[0]) + Flatten(ls[1..])
  }

  function Numerals(vs: seq<int>): (ws: seq<string>)
    ensures |ws| == |vs|
  {
    seq(|vs|, i requires 0 <= i < |vs| => Decimal(vs[i]))
  }

  /** The numbers of all the labels, separated by commas. */
  function MplsText(ls: seq<Label>): string {
    if ls == [] then "" else JoinWith(",", Numerals(Flatten(ls)))
  }

  ghost predicate AllValid(ls: seq<Label>) { forall l :: l in ls ==> l.Valid() }

  lemma {:induction false} FlattenAppend(ls: seq<Label>, l: Label)
    ensures Flatten(ls + [l]) == Flatten(ls) + Fields(l)
  {
    if ls == [] {
      assert ls + [l] == [l] && [l][1..] == [];
      assert Flatten([]) + Fields(l) == Fields(l) == Fields(l) + Flatten([]);
    } else {
      assert (ls + [l])[1..] == ls[1..] + [l];
      FlattenAppend(ls[1..], l);
      assert Fields(ls[0]) + (Flatten(ls[1..]) + Fields(l)) == Flatten(ls) + Fields(l);
    }
  }

  lemma NumeralsAppend(a: seq<int>, b: seq<int>)
    ensures Numerals(a + b) == Numerals(a) + Numerals(b)
  {}

  function LabelText(l: Label): string {
    Decimal(l.number) + "," + Decimal(l.trafficClass) + "," + Decimal(l.bottomOfStack) + "," + Decimal(l.ttl)
  }

  lemma LabelTextJoins(l: Label)
    ensures LabelText(l) == JoinWith(",", Numerals(Fields(l)))
  {
    hide Decimal;
    var a, b, c, d := Decimal(l.number), Decimal(l.trafficClass), Decimal(l.bottomOfStack), Decimal(l.ttl);
    var ws := Numerals(Fields(l));
    assert ws == [a, b, c, d] && ws[1..] == [b, c, d];
    assert [b, c, d][1..] == [c, d] && [c, d][1..] == [d];
    assert JoinWith(",", [d]) == d;
    assert JoinWith(",", [c, d]) == c + "," + d;
    assert JoinWith(",", [b, c, d]) == b + "," + (c + "," + d);
    assert a + "," + (b + "," + (c + "," + d)) == LabelText(l);
  }

  lemma LabelTextShort(l: Label)
    requires l.Valid()
    ensures 0 < |LabelText(l)| <= 16
  {
    hide Decimal;
    assert Pow10(3) == 1000 && Pow10(7) == 10_000_000 && Pow10(1) == 10 by {
      assert Pow10(4) == 10_000;
    }
    ShortDecimal(l.number, 7);
    ShortDecimal(l.trafficClass, 1);
    ShortDecimal(l.bottomOfStack, 1);
    ShortDecimal(l.ttl, 3);
  }

  lemma ShortDecimal(n: nat, k: nat)
    requires k >= 1 && n < Pow10(k)
    ensures 0 < |Decimal(n)| <= k
  {
    DigitsLength(n, k);
  }

  lemma MplsTextAppend(ls: seq<Label>, l: Label)
    requires ls != []
    ensures MplsText(ls + [l]) == MplsText(ls) + "," + LabelText(l)
  {
    FlattenAppend(ls, l);
    NumeralsAppend(Flatten(ls), Fields(l));
    JoinWithAppend(",", Numerals(Flatten(ls)), Numerals(Fields(l)));
    LabelTextJoins(l);
  }

  lemma MplsTextOne(l: Label)
    ensures MplsText([l]) == LabelText(l)
  {
    assert [l][1..] == [];
    assert Flatten([l]) == Fields(l) + [] == Fields(l);
    LabelTextJoins(l);
  }

  /**
   * Print into a bounded string, appending at a moving position.  `remaining` is the space the
   * program believes is left there; the text always fits.
   */
  method FormatMplsString(bufferSize: nat, mplsList: seq<Label>) returns (str: string)
    requires |mplsList| <= MAX_MPLS_LABELS && AllValid(mplsList) && bufferSize == COMMAND_BUFFER_SIZE
    ensures str == MplsText(mplsList)
    ensures |str| <= 17 * |mplsList|
  {
    hide LabelText;
    str := "";
    var remaining := bufferSize;
    var i := 0;
    while i < |mplsList|
      invariant 0 <= i <= |mplsList|
      invariant str == MplsText(mplsList[..i])
      invariant |str| <= 17 * i && remaining == bufferSize - |str|
    {
      assert mplsList[..i + 1] == mplsList[..i] + [mplsList[i]];
      var appendPos := |str|;
      if i > 0 {
        str := Strncat(str, ",", remaining - 1);
        remaining := remaining - (|str| - appendPos);
        appendPos := |str|;
        MplsTextAppend(mplsList[..i], mplsList[i]);
      } else {
        MplsTextOne(mplsList[i]);
      }
      LabelTextShort(mplsList[i]);
      str := str + Snprintf(remaining, LabelText(mplsList[i]));
      remaining := remaining - (|str| - appendPos);
      i := i + 1;
    }
    assert mplsList[..i] == mplsList;
  }

  // ----- parsing the labels -----

  /** The comma-separated numbers at the front of a text, at most `room`, and whether all is well. */
  datatype FieldList = FieldList(values: seq<int>, complete: bool)

  function ReadFields(s: string, room: nat): (r: FieldList)
    ensures |r.values| <= room
    decreases |s|
  {
    if s == "" || room == 0 then FieldList([], true)
    else
      var p := Strtol(s);
      if p.used == 0 then FieldList([], false)
      else
        var rest := s[p.used..];
        if rest != "" && rest[0] != ',' then FieldList([], false)
        else
          var more := ReadFields(if rest == "" then "" else rest[1..], room - 1);
          FieldList([ToInt32(p.value)] + more.values, more.complete)
  }

  /** `struct mplslen`: fixed arrays and a count. */
  datatype MplsLen = MplsLen(number: seq<int>, tc: seq<int>, s: seq<int>, ttl: seq<int>, labels: nat) {
    predicate Valid() {
      |number| == |tc| == |s| == |ttl| == MAXLABELS && labels <= MAXLABELS
    }

    /** The labels it holds. */
    function Labels(): seq<Label>
      requires Valid()
    {
      seq(labels, i requires 0 <= i < labels => Label(number[i], tc[i], s[i], ttl[i]))
    }
  }

  function ZeroMpls(): (m: MplsLen)
    ensures m.Valid()
  {
    var zeros := seq(MAXLABELS, _ => 0);
    MplsLen(zeros, zeros, zeros, zeros, 0)
  }

  /** Narrowing to `unsigned long` and to `char`. */
  function ToUnsignedLong(x: int): int { x % 0x1_0000_0000_0000_0000 }
  function ToChar8(x: int): int { (x + 128) % 256 - 128 }

  /** Value number n goes to field n % 4 of label n / 4. */
  function StoreValue(m: MplsLen, n: nat, v: int): (r: MplsLen)
    requires m.Valid() && n < MAX_VALUES
    ensures r.Valid() && r.labels == m.labels
  {
    var i := n / 4;
    if n % 4 == 0 then m.(number := m.number[i := ToUnsignedLong(v)])
    else if n % 4 == 1 then m.(tc := m.tc[i := ToByte(v)])
    else if n % 4 == 2 then m.(s := m.s[i := ToChar8(v)])
    else m.(ttl := m.ttl[i := ToByte(v)])
  }

  function StoreAll(m: MplsLen, vs: seq<int>): (r: MplsLen)
    requires m.Valid() && |vs| <= MAX_VALUES
    ensures r.Valid() && r.labels == m.labels
  {
    if vs == [] then m else StoreValue(StoreAll(m, vs[..|vs| - 1]), |vs| - 1, vs[|vs| - 1])
  }

  /** The whole effect of an `mpls` argument on the structure. */
  function ParsedMpls(m: MplsLen, text: string): (r: MplsLen)
    requires m.Valid()
    ensures r.Valid()
  {
    var fields := ReadFields(text, MAX_VALUES);
    var stored := StoreAll(m, fields.values);
    if fields.complete then stored.(labels := |fields.values| / 4) else stored
  }

  /** The text after the value at the front, if that value is well formed. */
  function AfterValue(s: string): Option<string> {
    var p := Strtol(s);
    if p.used == 0 then None
    else
      var rest := s[p.used..];
      if rest == "" then Some("") else if rest[0] == ',' then Some(rest[1..]) else None
  }

  lemma NextField(s: string, room: nat, done: seq<int>)
    requires s != "" && room > 0
    ensures AfterValue(s).None? ==> ReadFields(s, room) == FieldList([], false)
    ensures AfterValue(s).Some? ==>
              var more := ReadFields(AfterValue(s).value, room - 1);
              var v := ToInt32(Strtol(s).value);
              && ReadFields(s, room).complete == more.complete
              && done + ReadFields(s, room).values == (done + [v]) + more.values
  {
    hide Strtol;
    if AfterValue(s).Some? {
      var more := ReadFields(AfterValue(s).value, room - 1);
      var v := ToInt32(Strtol(s).value);
      assert ReadFields(s, room).values == [v] + more.values;
    }
  }

  lemma NoMoreFields(s: string, room: nat, done: seq<int>)
    ensures s == "" || room == 0 ==> ReadFields(s, room) == FieldList([], true)
    ensures done + [] == done
  {}

  lemma StoreNone(m: MplsLen)
    requires m.Valid()
    ensures StoreAll(m, []) == m
  {}

  lemma StoreNext(m: MplsLen, done: seq<int>, v: int)
    requires m.Valid() && |done| < MAX_VALUES
    ensures StoreAll(m, done + [v]) == StoreValue(StoreAll(m, done), |done|, v)
  {
    hide StoreValue;
    assert (done + [v])[..|done|] == done;
  }

  method StoreField(m: MplsLen, labelCount: nat, labelField: nat, value: int) returns (mpls: MplsLen)
    requires m.Valid() && labelCount < MAXLABELS && labelField < 4
    ensures mpls == StoreValue(m, 4 * labelCount + labelField, value)
  {
    hide ToByte, ToChar8, ToUnsignedLong;
    mpls := m;
    if labelField == 0 {
      mpls := mpls.(number := mpls.number[labelCount := ToUnsignedLong(value)]);
    } else if labelField == 1 {
      mpls := mpls.(tc := mpls.tc[labelCount := ToByte(value)]);
    } else if labelField == 2 {
      mpls := mpls.(s := mpls.s[labelCount := ToChar8(value)]);
    } else if labelField == 3 {
      mpls := mpls.(ttl := mpls.ttl[labelCount := ToByte(value)]);
    }
  }

  method ParseMplsValues(m: MplsLen, valueStr: string) returns (mpls: MplsLen)
    requires m.Valid()
    ensures mpls == ParsedMpls(m, valueStr)
  {
    hide Strtol, ToInt32, ReadFields, StoreAll, StoreValue;
    mpls := m;
    var nextValue := valueStr;
    var labelCount, labelField := 0, 0;
    ghost var done: seq<int> := [];
    ghost var all := ReadFields(valueStr, MAX_VALUES);
    assert done + all.values == all.values;
    StoreNone(m);
    while nextValue != ""
      invariant 0 <= labelField < 4 && 0 <= labelCount < MAXLABELS
      invariant |done| == 4 * labelCount + labelField
      invariant mpls == StoreAll(m, done)
      invariant all.complete == ReadFields(nextValue, MAX_VALUES - |done|).complete
      invariant all.values == done + ReadFields(nextValue, MAX_VALUES - |done|).values
      decreases |nextValue|
    {
      NextField(nextValue, MAX_VALUES - |done|, done);
      NoMoreFields("", 0, done);
      var parsed := Strtol(nextValue);
      if parsed.used == 0 {
        return;
      }
      var endOfValue := nextValue[parsed.used..];
      if endOfValue != "" && endOfValue[0] == ',' {
        nextValue := endOfValue[1..];
      } else if endOfValue == "" {
        nextValue := endOfValue;
      } else {
        return;
      }
      var value := ToInt32(parsed.value);
      StoreNext(m, done, value);
      mpls := StoreField(mpls, labelCount, labelField, value);
      done := done + [value];
      labelField := labelField + 1;
      if labelField > 3 {
        labelField := 0;
        labelCount := labelCount + 1;
      }
      if labelCount >= MAXLABELS {
        break;
      }
    }
    NoMoreFields(nextValue, MAX_VALUES - |done|, done);
    mpls := mpls.(labels := labelCount);
  }

  lemma FieldFirst(v: int, rest: string, room: nat)
    requires IsInt32(v) && room > 0 && (rest == "" || rest[0] == ',')
    ensures var more := ReadFields(if rest == "" then "" else rest[1..], room - 1);
            ReadFields(Decimal(v) + rest, room) == FieldList([v] + more.values, more.complete)
  {
    hide Decimal, Strtol;
    StrtolDecimal(v, rest);
    ToInt32Exact(v);
    assert (Decimal(v) + rest)[|Decimal(v)|..] == rest;
  }

  lemma {:induction false} FieldsOfText(vs: seq<int>, room: nat)
    requires vs != [] && |vs| <= room
    requires forall v :: v in vs ==> IsInt32(v)
    ensures ReadFields(JoinWith(",", Numerals(vs)), room) == FieldList(vs, true)
    decreases |vs|
  {
    hide Decimal, ReadFields, IsInt32;
    var ws, tail := Numerals(vs), Numerals(vs[1..]);
    assert ws[0] == Decimal(vs[0]) && ws[1..] == tail;
    if |vs| > 1 {
      var rest := "," + JoinWith(",", tail);
      assert JoinWith(",", ws) == Decimal(vs[0]) + rest;
      assert rest[1..] == JoinWith(",", tail);
      FieldFirst(vs[0], rest, room);
      FieldsOfText(vs[1..], room - 1);
    } else {
      assert JoinWith(",", ws) == Decimal(vs[0]) + "";
      FieldFirst(vs[0], "", room);
      NoMoreFields("", room - 1, []);
    }
    assert [vs[0]] + vs[1..] == vs;
  }

  lemma {:induction false} FlattenAt(ls: seq<Label>, i: nat)
    requires i < |ls|
    ensures Flatten(ls)[4 * i..4 * i + 4] == Fields(ls[i])
  {
    if i > 0 {
      FlattenAt(ls[1..], i - 1);
      var all := Flatten(ls);
      assert all[4 * i..4 * i + 4] == Flatten(ls[1..])[4 * (i - 1)..4 * (i - 1) + 4];
    }
  }

  lemma {:induction false} FlattenInRange(ls: seq<Label>)
    requires AllValid(ls)
    ensures forall v :: v in Flatten(ls) ==> IsInt32(v)
  {
    if ls != [] {
      assert ls[0].Valid();
      FlattenInRange(ls[1..]);
      forall v | v in Flatten(ls)
        ensures IsInt32(v)
      {
        assert v in Fields(ls[0]) || v in Flatten(ls[1..]);
      }
    }
  }

  /** Every stored value is where it belongs. */
  lemma {:induction false} StoredAt(m: MplsLen, vs: seq<int>, n: nat)
    requires m.Valid() && n < |vs| <= MAX_VALUES
    ensures var r := StoreAll(m, vs);
            && (n % 4 == 0 ==> r.number[n / 4] == ToUnsignedLong(vs[n]))
            && (n % 4 == 1 ==> r.tc[n / 4] == ToByte(vs[n]))
            && (n % 4 == 2 ==> r.s[n / 4] == ToChar8(vs[n]))
            && (n % 4 == 3 ==> r.ttl[n / 4] == ToByte(vs[n]))
    decreases |vs|
  {
    hide ToByte, ToChar8, ToUnsignedLong;
    if n < |vs| - 1 {
      StoredAt(m, vs[..|vs| - 1], n);
    }
  }

  /** What mtr-packet prints for a list of labels, the front end reads back, label for label. */
  lemma MplsRoundTrip(m: MplsLen, ls: seq<Label>)
    requires m.Valid() && ls != [] && |ls| <= MAXLABELS && AllValid(ls)
    ensures ParsedMpls(m, MplsText(ls)).Labels() == ls
  {
    hide StoreAll, Flatten, ReadFields;
    var vs := Flatten(ls);
    FlattenInRange(ls);
    FieldsOfText(vs, MAX_VALUES);
    var r := ParsedMpls(m, MplsText(ls));
    assert r.labels == |ls|;
    forall i | 0 <= i < |ls|
      ensures r.Labels()[i] == ls[i]
    {
      LabelStored(m, ls, i);
    }
  }

  lemma {:induction false} LabelStored(m: MplsLen, ls: seq<Label>, i: nat)
    requires m.Valid() && |ls| <= MAXLABELS && AllValid(ls) && i < |ls|
    ensures var r := StoreAll(m, Flatten(ls));
            Label(r.number[i], r.tc[i], r.s[i], r.ttl[i]) == ls[i]
  {
    hide StoreAll, Flatten;
    var vs := Flatten(ls);
    FlattenAt(ls, i);
    var four := vs[4 * i..4 * i + 4];
    assert vs[4 * i] == four[0] && vs[4 * i + 1] == four[1] && vs[4 * i + 2] == four[2] && vs[4 * i + 3] == four[3];
    StoredAt(m, vs, 4 * i);
    StoredAt(m, vs, 4 * i + 1);
    StoredAt(m, vs, 4 * i + 2);
    StoredAt(m, vs, 4 * i + 3);
    assert ls[i].Valid();
  }

  // ----- the whole reply -----

  datatype IcmpResult = EchoReply | TimeExceeded | DestUnreach

  /** The facts a reply reports.  The address is its text, as `inet_ntop` gives it. */
  datatype Response = Response(token: int, icmp: IcmpResult, ip6: bool, address: string,
                               roundTripUs: int, labels: seq<Label>)
  {
    predicate Valid() {
      && IsInt32(token) && IsWord(address) && |address| <= MAX_ADDRESS_TEXT && NUL !in address
      && 0 <= roundTripUs < 0x1_0000_0000
      && |labels| <= MAX_MPLS_LABELS
    }
  }

  function ResultName(r: IcmpResult): string {
    match r
    case TimeExceeded => "ttl-expired"
    case DestUnreach => "no-route"
    case EchoReply => "reply"
  }

  function BaseReply(r: Response): seq<string> {
    [Decimal(r.token), ResultName(r.icmp), if r.ip6 then "ip-6" else "ip-4", r.address,
     "round-trip-time", Decimal(ToInt32(r.roundTripUs))]
  }

  function ReplyWords(r: Response): seq<string> {
    BaseReply(r) + if r.labels == [] then [] else ["mpls", MplsText(r.labels)]
  }

  lemma JoinSix(a: string, b: string, c: string, d: string, e: string, f: string)
    ensures Join([a, b, c, d, e, f]) == a + " " + b + " " + c + " " + d + " " + e + " " + f
  {
    var cd, ef := [c, d], [e, f];
    JoinTwo(a, b); JoinTwo(c, d); JoinTwo(e, f);
    JoinAppend([a, b], cd);
    JoinAppend([a, b] + cd, ef);
    assert [a, b] + cd + ef == [a, b, c, d, e, f];
    assert a + " " + b + " " + (c + " " + d) == a + " " + b + " " + c + " " + d;
    assert Join([a, b] + cd) + " " + (e + " " + f) == Join([a, b] + cd) + " " + e + " " + f;
  }

  lemma BaseReplyText(r: Response, result: string, ipArgument: string)
    requires r.Valid() && result == ResultName(r.icmp) && ipArgument == if r.ip6 then "ip-6" else "ip-4"
    ensures var text := Decimal(r.token) + " " + result + " " + ipArgument + " " + r.address + " "
                        + "round-trip-time" + " " + Decimal(ToInt32(r.roundTripUs));
            text == Join(BaseReply(r)) && |text| <= 120
  {
    hide Join, Decimal, ToInt32;
    DecimalLength(r.token);
    DecimalLength(ToInt32(r.roundTripUs));
    JoinSix(Decimal(r.token), result, ipArgument, r.address, "round-trip-time", Decimal(ToInt32(r.roundTripUs)));
  }

  lemma ReplyWithLabels(r: Response)
    requires r.labels != []
    ensures Join(BaseReply(r)) + " mpls " + MplsText(r.labels) == Join(ReplyWords(r))
  {
    hide Join, Decimal, MplsText, ToInt32;
    var text := MplsText(r.labels);
    JoinTwo("mpls", text);
    JoinAppend(BaseReply(r), ["mpls", text]);
    assert Join(BaseReply(r)) + " mpls " + text == Join(BaseReply(r)) + " " + ("mpls" + " " + text);
  }

  /** The words of a reply, written out. */
  ghost predicate SaysResult(line: string, r: Response) {
    ParseLine(line).Parsed? &&
    var c := ParseLine(line).command;
    && c.token == r.token
    && (c.name == "reply" <==> r.icmp == EchoReply)
    && (c.name == "ttl-expired" <==> r.icmp == TimeExceeded)
    && (c.name == "no-route" <==> r.icmp == DestUnreach)
    && |c.arguments| >= 2
    && c.arguments[0] == Argument(if r.ip6 then "ip-6" else "ip-4", r.address)
    && c.arguments[1] == Argument("round-trip-time", Decimal(ToInt32(r.roundTripUs)))
    && c.arguments[2..] == (if r.labels == [] then [] else [Argument("mpls", MplsText(r.labels))])
  }

  lemma ReplySaysResult(r: Response)
    requires r.Valid() && AllValid(r.labels)
    ensures SaysResult(Join(ReplyWords(r)), r)
  {
    hide Decimal, Join, Words, Strtol, MplsText, ToInt32;
    var ws := ReplyWords(r);
    ReplyWordsAreWords(r);
    WordsOfJoin(ws);
    StrtolWholeDecimal(r.token);
    ToInt32Exact(r.token);
    assert ws[0] == Decimal(r.token);
    assert ws[2..][2..] == ws[4..];
    assert Pairs(ws[2..]) == [Argument(ws[2], ws[3])] + Pairs(ws[4..]);
    assert ws[4..][2..] == ws[6..];
    assert Pairs(ws[4..]) == [Argument(ws[4], ws[5])] + Pairs(ws[6..]);
    if r.labels != [] {
      assert ws[6..][2..] == [];
      assert Pairs(ws[6..]) == [Argument(ws[6], ws[7])];
    }
  }

  /** The line `respond_to_probe` prints; the round trip time is unsigned but printed with `%d`. */
  method FormatResponse(r: Response) returns (response: string)
    requires r.Valid() && AllValid(r.labels)
    ensures response == Join(ReplyWords(r)) && SaysResult(response, r)
    ensures |response| <= 300
  {
    hide Join, Decimal, MplsText, ToInt32, BaseReply, SaysResult;
    ReplySaysResult(r);
    var result;
    if r.icmp == TimeExceeded {
      result := "ttl-expired";
    } else if r.icmp == DestUnreach {
      result := "no-route";
    } else {
      result := "reply";
    }
    var ipArgument := if r.ip6 then "ip-6" else "ip-4";
    BaseReplyText(r, result, ipArgument);
    response := Snprintf(COMMAND_BUFFER_SIZE,
      Decimal(r.token) + " " + result + " " + ipArgument + " " + r.address + " "
      + "round-trip-time" + " " + Decimal(ToInt32(r.roundTripUs)));
    if r.labels != [] {
      var mplsStr := FormatMplsString(COMMAND_BUFFER_SIZE, r.labels);
      var remainingSize := COMMAND_BUFFER_SIZE - |response| - 1;
      response := Strncat(response, " mpls ", remainingSize);
      remainingSize := COMMAND_BUFFER_SIZE - |response| - 1;
      response := Strncat(response, mplsStr, remainingSize);
      ReplyWithLabels(r);
    } else {
      NoLabels(r);
    }
  }

  lemma NoLabels(r: Response)
    requires r.labels == []
    ensures ReplyWords(r) == BaseReply(r)
  {}

  // ----- handling the reply -----

  /** What `parse_reply_arguments` has gathered. */
  datatype Gathered = Gathered(foundIp: bool, foundRoundTrip: bool, address: string, roundTrip: int, mpls: MplsLen)

  function Nothing(): Gathered { Gathered(false, false, "", 0, ZeroMpls()) }

  /** The effect of one argument; `isAddress` says which texts `inet_pton` accepts. */
  function Gather(g: Gathered, a: Argument, ip6: bool, isAddress: string -> bool): Gathered
    requires g.mpls.Valid()
  {
    if a.name == (if ip6 then "ip-6" else "ip-4") then
      if isAddress(a.value) then g.(foundIp := true, address := a.value) else g
    else if a.name == "round-trip-time" then
      var p := Strtol(a.value);
      g.(roundTrip := ToInt32(p.value), foundRoundTrip := g.foundRoundTrip || !p.range)
    else if a.name == "mpls" then g.(mpls := ParsedMpls(g.mpls, a.value))
    else g
  }

  function GatherAll(arguments: seq<Argument>, ip6: bool, isAddress: string -> bool): (g: Gathered)
    ensures g.mpls.Valid()
  {
    if arguments == [] then Nothing()
    else Gather(GatherAll(arguments[..|arguments| - 1], ip6, isAddress), arguments[|arguments| - 1], ip6, isAddress)
  }

  method ParseReplyArguments(arguments: seq<Argument>, ip6: bool, isAddress: string -> bool) returns (g: Gathered)
    ensures g == GatherAll(arguments, ip6, isAddress)
  {
    hide ParsedMpls, Strtol;
    g := Nothing();
    var i := 0;
    while i < |arguments|
      invariant 0 <= i <= |arguments|
      invariant g == GatherAll(arguments[..i], ip6, isAddress)
    {
      assert arguments[..i + 1][..i] == arguments[..i];
      var a := arguments[i];
      if ip6 {
        if a.name == "ip-6" {
          if isAddress(a.value) {
            g := g.(address := a.value, foundIp := true);
          }
        }
      } else {
        if a.name == "ip-4" {
          if isAddress(a.value) {
            g := g.(address := a.value, foundIp := true);
          }
        }
      }
      if a.name == "round-trip-time" {
        var parsed := Strtol(a.value);
        g := g.(roundTrip := ToInt32(parsed.value));
        if !parsed.range {
          g := g.(foundRoundTrip := true);
        }
      }
      if a.name == "mpls" {
        var mpls := ParseMplsValues(g.mpls, a.value);
        g := g.(mpls := mpls);
      }
      i := i + 1;
    }
    assert arguments[..i] == arguments;
  }

  datatype NetError = NoError | NetUnreach | NetDown

  /** Report a hop to the statistics, ignore the line, or exit with a message. */
  datatype Handled =
    | Report(sequence: int, err: NetError, address: string, roundTrip: int, mpls: MplsLen)
    | Ignored
    | Fatal

  predicate IsErrorName(name: string) {
    name == "probes-exhausted" || name == "invalid-argument" || name == "permission-denied"
    || name == "address-in-use" || name == "address-not-available" || name == "unexpected-error"
  }

  function HandledReply(line: string, ip6: bool, isAddress: string -> bool): Handled {
    var parsed := ParseLine(line);
    if parsed.Invalid? || IsErrorName(parsed.command.name) then Fatal
    else
      var name := parsed.command.name;
      if name != "reply" && name != "ttl-expired" && name != "no-route" && name != "network-down" then Ignored
      else
        var g := GatherAll(parsed.command.arguments, ip6, isAddress);
        if !g.foundIp || !g.foundRoundTrip then Ignored
        else
          Report(parsed.command.token,
                 if name == "no-route" then NetUnreach else if name == "network-down" then NetDown else NoError,
                 g.address, g.roundTrip, g.mpls)
  }

  method HandleCommandReply(replyStr: array<char>, ghost line: string, ip6: bool, isAddress: string -> bool)
      returns (handled: Handled)
    requires |line| < replyStr.Length && NUL !in line
    requires replyStr[..|line|] == line && replyStr[|line|] == NUL
    modifies replyStr
    ensures handled == HandledReply(line, ip6, isAddress)
  {
    hide ParseLine, GatherAll;
    var reply := ParseCommand(replyStr, line);
    if reply.Invalid? || IsErrorName(reply.command.name) {
      return Fatal;
    }
    var replyName := reply.command.name;
    var err;
    if replyName == "reply" || replyName == "ttl-expired" {
      err := NoError;
    } else if replyName == "no-route" {
      err := NetUnreach;
    } else if replyName == "network-down" {
      err := NetDown;
    } else {
      return Ignored;
    }
    var g := ParseReplyArguments(reply.command.arguments, ip6, isAddress);
    if g.foundIp && g.foundRoundTrip {
      handled := Report(reply.command.token, err, g.address, g.roundTrip, g.mpls);
    } else {
      handled := Ignored;
    }
  }

  lemma MplsTextIsWord(ls: seq<Label>)
    requires ls != []
    ensures IsWord(MplsText(ls)) && NUL !in MplsText(ls)
  {
    NumeralsAreWords(Flatten(ls));
  }

  lemma {:induction false} NumeralsAreWords(vs: seq<int>)
    requires vs != []
    ensures IsWord(JoinWith(",", Numerals(vs))) && NUL !in JoinWith(",", Numerals(vs))
  {
    hide Decimal;
    var ws := Numerals(vs);
    DecimalIsWord(vs[0]);
    assert ws[0] == Decimal(vs[0]);
    if |vs| > 1 {
      assert ws[1..] == Numerals(vs[1..]);
      NumeralsAreWords(vs[1..]);
    }
  }

  lemma ReplyWordsAreWords(r: Response)
    requires r.Valid()
    ensures forall w :: w in ReplyWords(r) ==> IsWord(w) && NUL !in w
  {
    hide Decimal, MplsText, ToInt32;
    DecimalIsWord(r.token);
    DecimalIsWord(ToInt32(r.roundTripUs));
    if r.labels != [] {
      MplsTextIsWord(r.labels);
    }
  }

  lemma GatherMore(arguments: seq<Argument>, a: Argument, ip6: bool, isAddress: string -> bool)
    ensures GatherAll(arguments + [a], ip6, isAddress)
         == Gather(GatherAll(arguments, ip6, isAddress), a, ip6, isAddress)
  {
    hide Gather;
    assert (arguments + [a])[..|arguments|] == arguments;
  }

  function TimeWords(r: Response): seq<string> {
    ["round-trip-time", Decimal(ToInt32(r.roundTripUs))]
  }

  /** The address and the round trip time, gathered. */
  lemma GatherAddressAndTime(r: Response, isAddress: string -> bool)
    requires isAddress(r.address)
    ensures var ip := if r.ip6 then "ip-6" else "ip-4";
            GatherAll(Pairs([ip, r.address] + TimeWords(r)), r.ip6, isAddress)
            == Gathered(true, true, r.address, ToInt32(r.roundTripUs), ZeroMpls())
  {
    hide Decimal, ToInt32, Strtol, Pairs, GatherAll, ZeroMpls;
    var rtt := ToInt32(r.roundTripUs);
    var ip := Argument(if r.ip6 then "ip-6" else "ip-4", r.address);
    var time := Argument("round-trip-time", Decimal(rtt));
    StrtolWholeDecimal(rtt);
    ToInt32Exact(rtt);
    PairsOfNone();
    GatherNone(r.ip6, isAddress);
    PairsAppend([], ip.name, ip.value);
    assert [] + [ip.name, ip.value] == [ip.name, ip.value];
    PairsAppend([ip.name, ip.value], time.name, time.value);
    GatherMore([], ip, r.ip6, isAddress);
    GatherMore([] + [ip], time, r.ip6, isAddress);
  }

  lemma GatherNone(ip6: bool, isAddress: string -> bool)
    ensures GatherAll([], ip6, isAddress) == Nothing()
  {}

  /** The three arguments that matter, gathered. */
  lemma GatherResponse(r: Response, isAddress: string -> bool)
    requires r.Valid() && AllValid(r.labels) && isAddress(r.address)
    ensures |ReplyWords(r)| % 2 == 0
    ensures var g := GatherAll(Pairs(ReplyWords(r)[2..]), r.ip6, isAddress);
            && g.foundIp && g.foundRoundTrip && g.address == r.address
            && g.roundTrip == ToInt32(r.roundTripUs) && g.mpls.Labels() == r.labels
  {
    hide Decimal, MplsText, ToInt32, ParsedMpls, Pairs, GatherAll, Strtol;
    var ws := [if r.ip6 then "ip-6" else "ip-4", r.address] + TimeWords(r);
    GatherAddressAndTime(r, isAddress);
    if r.labels == [] {
      assert ReplyWords(r)[2..] == ws;
    } else {
      var text := MplsText(r.labels);
      PairsAppend(ws, "mpls", text);
      assert ReplyWords(r)[2..] == ws + ["mpls", text];
      GatherMore(Pairs(ws), Argument("mpls", text), r.ip6, isAddress);
      MplsRoundTrip(ZeroMpls(), r.labels);
    }
  }

  lemma PairsOfNone()
    ensures Pairs([]) == []
  {}

  /**
   * Every probe reply the daemon prints is understood by the front end: same token, same address,
   * same labels, the round trip time as a 32-bit value, and an error exactly for unreachable hosts.
   */
  lemma ReplyRoundTrip(r: Response, isAddress: string -> bool)
    requires r.Valid() && AllValid(r.labels) && isAddress(r.address)
    ensures var h := HandledReply(Join(ReplyWords(r)), r.ip6, isAddress);
            && h.Report? && h.sequence == r.token && h.address == r.address
            && h.roundTrip == ToInt32(r.roundTripUs)
            && h.err == (if r.icmp == DestUnreach then NetUnreach else NoError)
            && h.mpls.Valid() && h.mpls.Labels() == r.labels
  {
    hide Decimal, Join, Words, Strtol, Pairs, GatherAll, MplsText, ToInt32;
    var ws := ReplyWords(r);
    ReplyWordsAreWords(r);
    WordsOfJoin(ws);
    GatherResponse(r, isAddress);
    StrtolWholeDecimal(r.token);
    ToInt32Exact(r.token);
    assert ws[0] == Decimal(r.token) && ws[1] == ResultName(r.icmp);
  }
}
