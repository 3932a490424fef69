/** Record contents and the parsing of their validation data
    (ipld/iprs.go, record/eol.go, record/range.go). */
module Records {
  import opened Wrappers
  import opened Text
  import opened Library

  const VERIFICATION_KEY: nat := 0
  const VERIFICATION_CERT: nat := 1
  const VALIDATION_EOL: nat := 0
  const VALIDATION_TIME_RANGE: nat := 1

  const START_OF_TIME: string := "-\U{E2}\U{88}\U{9E}"
  const END_OF_TIME: string := "\U{E2}\U{88}\U{9E}"

  datatype Validity = Validity(
    verificationType: nat, verification: Data, validationType: nat, validation: Data)

  /** An ld.Node with the nodes it depends on. */
  datatype Record = Record(
    version: nat, value: Bytes, validity: Validity, signature: Bytes, node: Node, dependencies: seq<Node>)

  function EolParseValidation(lib: Lib, record: Record): Result<int, Error> {
    match record.validity.validation
    case Str(s) =>
      (match lib.parseTime(s)
       case Some(t) => Ok(t)
       case None => Err(BadTime))
    case _ => Err(BadData)
  }

  /** A *time.Time pair; None is the nil that stands for no bound. */
  datatype Interval = Interval(start: Option<int>, end: Option<int>)

  function AllTexts(items: seq<Data>): Option<seq<string>> {
    if items == [] then Some([])
    else match (items[0], AllTexts(items[1..]))
      case (Str(s), Some(rest)) => Some([s] + rest)
      case _ => None
  }

  lemma {:induction false} AllTextsExactly(items: seq<Data>)
    ensures AllTexts(items).Some? <==> forall i | 0 <= i < |items| :: items[i].Str?
    ensures AllTexts(items).Some? ==>
      |AllTexts(items).value| == |items| && forall i | 0 <= i < |items| :: items[i] == Str(AllTexts(items).value[i])
  {
    if items != [] {
      AllTextsExactly(items[1..]);
      if forall i | 0 <= i < |items| :: items[i].Str? {
        assert forall i | 0 <= i < |items[1..]| :: items[1..][i] == items[i + 1];
      }
      if AllTexts(items).Some? {
        forall i | 0 < i < |items| ensures items[i] == Str(AllTexts(items).value[i]) {
          assert items[i] == items[1..][i - 1];
        }
      }
    }
  }

  /** The two texts of time range validation data, as []string or as the
      []interface{} it is decoded to. */
  function StringTuple(o: Data): Result<seq<string>, Error> {
    match o
    case Strings(ss) => if |ss| == 2 then Ok(ss) else Err(BadData)
    case List(items) =>
      (match AllTexts(items)
       case Some(ss) => if |ss| == 2 then Ok(ss) else Err(BadData)
       case None => Err(BadData))
    case _ => Err(BadData)
  }

  /** Data is a tuple of texts exactly as a []string of two, or as the list of two texts it is
      decoded to. */
  lemma {:induction false} TupleExactly(o: Data, first: string, second: string)
    ensures StringTuple(o) == Ok([first, second]) <==>
      o == Strings([first, second]) || o == List([Str(first), Str(second)])
    ensures StringTuple(o).Ok? ==> |StringTuple(o).value| == 2
  {
    if o.List? {
      AllTextsExactly(o.items);
      if o.items == [Str(first), Str(second)] {
        assert AllTexts(o.items).value == [first, second];
      }
    }
  }

  method InterfaceToStringTuple(o: Data) returns (r: Result<seq<string>, Error>)
    ensures r == StringTuple(o)
  {
    var s: seq<string>;
    match o {
      case Strings(ss) =>
        s := ss;
      case List(items) =>
        AllTextsExactly(items);
        var filled := new string[|items|](_ => "");
        for i := 0 to |items|
          invariant forall j | 0 <= j < i :: items[j] == Str(filled[j])
        {
          if !items[i].Str? {
            return Err(BadData);
          }
          filled[i] := items[i].text;
        }
        s := filled[..];
        assert s == AllTexts(items).value;
      case _ =>
        return Err(BadData);
    }
    if |s| != 2 {
      return Err(BadData);
    }
    return Ok(s);
  }

  function ParseBound(lib: Lib, text: string, unbounded: string): Result<Option<int>, Error> {
    if text == unbounded then Ok(None)
    else match lib.parseTime(text)
      case Some(t) => Ok(Some(t))
      case None => Err(BadTime)
  }

  function RangeParseValidation(lib: Lib, record: Record): Result<Interval, Error> {
    match StringTuple(record.validity.validation)
    case Err(e) => Err(e)
    case Ok(s) =>
      match (ParseBound(lib, s[0], START_OF_TIME), ParseBound(lib, s[1], END_OF_TIME))
      case (Err(e), _) => Err(e)
      case (Ok(_), Err(e)) => Err(e)
      case (Ok(start), Ok(end)) =>
        if start.Some? && end.Some? && start.value > end.value then Err(BadRange)
        else Ok(Interval(start, end))
  }

  /** ValidateRecord of the two checkers at time `now`; None is success. */
  function ValidateEol(lib: Lib, record: Record, now: int): Option<Error> {
    match EolParseValidation(lib, record)
    case Err(e) => Some(e)
    case Ok(t) => if now > t then Some(ErrExpiredRecord) else None
  }

  function ValidateRange(lib: Lib, record: Record, now: int): Option<Error> {
    match RangeParseValidation(lib, record)
    case Err(e) => Some(e)
    case Ok(t) =>
      if t.start.Some? && now < t.start.value then Some(ErrPendingRecord)
      else if t.end.Some? && now > t.end.value then Some(ErrExpiredRecord)
      else None
  }

  function ValidateRecord(lib: Lib, record: Record, now: int): Option<Error> {
    if record.validity.validationType == VALIDATION_EOL then ValidateEol(lib, record, now)
    else if record.validity.validationType == VALIDATION_TIME_RANGE then ValidateRange(lib, record, now)
    else Some(UnknownType)
  }

  /** IprsResolver.getEol: the expiry handed to the cache. */
  function GetEol(lib: Lib, record: Record): Option<int> {
    if record.validity.validationType == VALIDATION_EOL then
      match EolParseValidation(lib, record)
      case Err(_) => None
      case Ok(t) => Some(t)
    else if record.validity.validationType == VALIDATION_TIME_RANGE then
      match RangeParseValidation(lib, record)
      case Err(_) => None
      case Ok(t) => t.end
    else None
  }

  /** The expiry handed to the cache is the last instant at which the record is not
      rejected as expired; a record without one is never rejected as expired. The one
      exception is a time range that is still pending when it is already over, which
      parsing rules out. */
  lemma EolIsLastUnexpired(lib: Lib, record: Record, now: int)
    ensures ValidateRecord(lib, record, now) == Some(ErrExpiredRecord) <==>
      GetEol(lib, record).Some? && now > GetEol(lib, record).value
  {
  }

  /** End-of-life data parses exactly when it is a text that is a timestamp. */
  lemma {:induction false} EolParsesExactly(lib: Lib, record: Record, t: int)
    ensures EolParseValidation(lib, record) == Ok(t) <==>
      exists text: string :: record.validity.validation == Str(text) && lib.parseTime(text) == Some(t)
  {
  }

  /** The text stands for the bound: the one for no bound, or a timestamp. */
  predicate Denotes(lib: Lib, text: string, unbounded: string, bound: Option<int>) {
    if text == unbounded then bound == None else bound.Some? && lib.parseTime(text) == bound
  }

  /** Range data parses exactly when it is a tuple of two texts that stand for bounds in order. */
  lemma {:induction false} RangeParsesExactly(lib: Lib, record: Record, start: Option<int>, end: Option<int>)
    ensures RangeParseValidation(lib, record) == Ok(Interval(start, end)) <==>
      && (start.Some? && end.Some? ==> start.value <= end.value)
      && exists first: string, second: string ::
           && (record.validity.validation == Strings([first, second])
               || record.validity.validation == List([Str(first), Str(second)]))
           && Denotes(lib, first, "-\U{E2}\U{88}\U{9E}", start) && Denotes(lib, second, "\U{E2}\U{88}\U{9E}", end)
  {
    var o := record.validity.validation;
    if StringTuple(o).Ok? {
      var s := StringTuple(o).value;
      TupleExactly(o, s[0], s[1]);
      assert s == [s[0], s[1]];
    }
    if first: string, second: string :| o == Strings([first, second]) || o == List([Str(first), Str(second)]) {
      TupleExactly(o, first, second);
    }
  }

  /** Validation succeeds exactly for a record of type 0 that is not past its end of life, and
      for one of type 1 within its bounds. */
  lemma {:induction false} ValidExactly(lib: Lib, record: Record, now: int)
    ensures ValidateRecord(lib, record, now) == None <==>
      match record.validity.validationType
      case 0 => exists t: int :: EolParseValidation(lib, record) == Ok(t) && now <= t
      case 1 =>
        && RangeParseValidation(lib, record).Ok?
        && var t := RangeParseValidation(lib, record).value;
        && (t.start.Some? ==> t.start.value <= now) && (t.end.Some? ==> now <= t.end.value)
      case _ => false
  {
    hide EolParseValidation, RangeParseValidation;
    if EolParseValidation(lib, record).Ok? {
      var t := EolParseValidation(lib, record).value;
    }
  }

  lemma RangeErrors(lib: Lib, record: Record)
    ensures var r := RangeParseValidation(lib, record);
      && r != Err(ErrExpiredRecord)
      && (r.Ok? && r.value.start.Some? && r.value.end.Some? ==> r.value.start.value <= r.value.end.value)
  {
  }
}
