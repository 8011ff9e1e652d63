/**
 The format-string parser. It reports literal text and replacement fields to a handler, whose state is any type
 S; short strings are scanned character by character, long ones in two passes that search for braces.
 */
module FormatString {
  import opened DecimalText
  import opened DecimalDigits
  import opened Options

  /** An argument reference: the next one in order, a number or a name. */
  datatype ArgRef = Auto | Index(number: int) | Name(name: string)

  /** Outcome of one handler call or parsing step: the new state, with a result or an error. */
  datatype Step<S, T> = Ok(state: S, value: T) | Err(state: S, message: string)

  /** Outcome of parsing a whole string. */
  datatype Result<S> = Done(state: S) | Failed(state: S, message: string)

  /** The callbacks; positions index the format string, errors end the parsing. */
  datatype Handler<!S> = Handler(
    onText: (S, string) -> S,
    onArgId: (S, ArgRef) -> Step<S, int>,
    onReplacementField: (S, int, nat) -> Step<S, ()>,
    onFormatSpecs: (S, int, nat) -> Step<S, nat>)

  /** The specification parser returns a position between where it started and the end. */
  ghost predicate SpecsInRange<S(!new)>(h: Handler<S>, size: nat) {
    forall st: S, id: int, p: nat | p <= size ::
      var r := h.onFormatSpecs(st, id, p);
      r.Ok? ==> p <= r.value <= size
  }

  /** Empty text changes nothing. */
  ghost predicate IgnoresEmptyText<S(!new)>(h: Handler<S>) {
    forall st: S :: h.onText(st, "") == st
  }

  predicate IsNameStart(c: char) {
    'a' <= c <= 'z' || 'A' <= c <= 'Z' || c == '_'
  }

  /** End of the run of name characters from p. */
  function NameEnd(s: string, p: nat): (q: nat)
    requires p <= |s|
    ensures p <= q <= |s|
    decreases |s| - p
  {
    if p < |s| && (IsNameStart(s[p]) || IsDigit(s[p])) then NameEnd(s, p + 1) else p
  }

  /** Parses an argument id at p; the value is the id and the position behind it. */
  function ParseArgId<S>(h: Handler<S>, s: string, st: S, p: nat): (r: Step<S, (int, nat)>)
    requires p < |s|
    ensures r.Ok? ==> p <= r.value.1 <= |s|
  {
    var c := s[p];
    if c == '}' || c == ':' then WithPosition(h.onArgId(st, Auto), p)
    else if IsDigit(c) then
      var q := if c == '0' then p + 1 else DigitsEnd(s, p);
      var number := if c == '0' then 0 else NonnegativeInt(s[p..q], INT_MAX);
      if q == |s| || (s[q] != '}' && s[q] != ':') then Err(st, "invalid format string")
      else WithPosition(h.onArgId(st, Index(number)), q)
    else if !IsNameStart(c) then Err(st, "invalid format string")
    else
      var q := NameEnd(s, p + 1);
      WithPosition(h.onArgId(st, Name(s[p..q])), q)
  }

  function WithPosition<S>(r: Step<S, int>, p: nat): Step<S, (int, nat)> {
    match r
    case Ok(st, id) => Ok(st, (id, p))
    case Err(st, message) => Err(st, message)
  }

  function FinishField<S>(h: Handler<S>, st: S, id: int, p: nat): (r: Step<S, nat>)
    ensures r.Ok? ==> r.value == p + 1
  {
    match h.onReplacementField(st, id, p)
    case Err(st1, message) => Err(st1, message)
    case Ok(st1, _) => Ok(st1, p + 1)
  }

  function FieldSpecs<S(!new)>(h: Handler<S>, s: string, st: S, id: int, p: nat): (r: Step<S, nat>)
    requires p <= |s|
    ensures r.Ok? && SpecsInRange(h, |s|) ==> p < r.value <= |s|
  {
    match h.onFormatSpecs(st, id, p)
    case Err(st1, message) => Err(st1, message)
    case Ok(st1, e) => if e >= |s| || s[e] != '}' then Err(st1, "unknown format specifier") else Ok(st1, e + 1)
  }

  /** What a field does once its reference is read up to q. */
  function Field<S(!new)>(h: Handler<S>, s: string, found: Step<S, int>, q: nat): (r: Step<S, nat>)
    requires q < |s|
    ensures r.Ok? && SpecsInRange(h, |s|) ==> q < r.value <= |s|
  {
    match found
    case Err(st1, message) => Err(st1, message)
    case Ok(st1, id) => if s[q] == '}' then FinishField(h, st1, id, q) else FieldSpecs(h, s, st1, id, q + 1)
  }

  /** Parses the replacement field whose opening brace is at p; the value is the position behind it. */
  function ParseReplacementField<S(!new)>(h: Handler<S>, s: string, st: S, p: nat): (r: Step<S, nat>)
    requires p < |s|
    ensures r.Ok? && SpecsInRange(h, |s|) ==> p < r.value <= |s|
  {
    var begin := p + 1;
    if begin == |s| then Err(st, "invalid format string")
    else if s[begin] == '}' then Field(h, s, h.onArgId(st, Auto), begin)
    else if s[begin] == '{' then Ok(h.onText(st, s[begin..begin + 1]), begin + 1)
    else
      match ParseArgId(h, s, st, begin)
      case Err(st1, message) => Err(st1, message)
      case Ok(st1, (id, q)) =>
        if q < |s| && (s[q] == '}' || s[q] == ':') then Field(h, s, Ok(st1, id), q)
        else Err(st1, "missing '}' in format string")
  }

  const UNMATCHED: string := "unmatched '}' in format string"

  // ---- The form of a replacement field ----

  predicate IsName(s: string) {
    s != [] && IsNameStart(s[0]) && forall k :: 0 <= k < |s| ==> IsNameStart(s[k]) || IsDigit(s[k])
  }

  /** How references are written: nothing, a number without leading zeros, or a name. Too large numbers are capped. */
  predicate Reference(text: string, ref: ArgRef) {
    match ref
    case Auto => text == ""
    case Index(n) =>
      text != [] && AllDigits(text) && (text[0] == '0' ==> |text| == 1) && n == NonnegativeInt(text, INT_MAX)
    case Name(name) => text == name && IsName(name)
  }

  /** A reference from p to q, with the character that has to follow it. */
  predicate ReferenceAt(s: string, p: nat, q: nat, ref: ArgRef) {
    p <= q < |s| && (s[q] == '}' || s[q] == ':') && Reference(s[p..q], ref)
  }

  lemma {:induction false} DigitsEndAt(s: string, p: nat, q: nat)
    requires p <= q <= |s| && AllDigits(s[p..q]) && (q < |s| ==> !IsDigit(s[q]))
    ensures DigitsEnd(s, p) == q
    decreases q - p
  {
    if p < q {
      assert s[p] == s[p..q][0];
      assert s[p + 1..q] == s[p..q][1..];
      DigitsEndAt(s, p + 1, q);
    }
  }

  lemma {:induction false} NameEndAt(s: string, p: nat, q: nat)
    requires p <= q <= |s| && (forall k :: p <= k < q ==> IsNameStart(s[k]) || IsDigit(s[k]))
    requires q < |s| ==> !IsNameStart(s[q]) && !IsDigit(s[q])
    ensures NameEnd(s, p) == q
    decreases q - p
  {
    if p < q {
      NameEndAt(s, p + 1, q);
    }
  }

  lemma {:induction false} NameEndRun(s: string, p: nat)
    requires p <= |s|
    ensures forall k :: p <= k < NameEnd(s, p) ==> IsNameStart(s[k]) || IsDigit(s[k])
    decreases |s| - p
  {
    if p < |s| && (IsNameStart(s[p]) || IsDigit(s[p])) {
      NameEndRun(s, p + 1);
    }
  }

  /** The index 0, written alone. */
  lemma ZeroIndex(text: string)
    requires |text| == 1 && text[0] == '0'
    ensures AllDigits(text) && NonnegativeInt(text, INT_MAX) == 0
  {
    assert text[..0] == [];
    assert DecValue(text) == 0;
  }

  /** A reference followed by a closing brace or a colon is parsed as what it says. */
  lemma ReferenceParsed<S>(h: Handler<S>, s: string, st: S, p: nat, q: nat, ref: ArgRef)
    requires ReferenceAt(s, p, q, ref)
    ensures ParseArgId(h, s, st, p) == WithPosition(h.onArgId(st, ref), q)
  {
    hide NonnegativeInt;
    var text := s[p..q];
    match ref {
      case Auto => assert p == q;
      case Index(_) =>
        assert s[p] == text[0];
        if s[p] == '0' {
          ZeroIndex(text);
        } else {
          DigitsEndAt(s, p, q);
        }
      case Name(_) =>
        assert s[p] == text[0];
        forall k | p <= k < q ensures IsNameStart(s[k]) || IsDigit(s[k]) {
          assert s[k] == text[k - p];
        }
        NameEndAt(s, p + 1, q);
    }
  }

  /** What is accepted in front of a closing brace or a colon is a reference. */
  lemma ParsedReference<S>(h: Handler<S>, s: string, st: S, p: nat) returns (ref: ArgRef)
    requires p < |s| && ParseArgId(h, s, st, p).Ok?
    ensures Reference(s[p..ParseArgId(h, s, st, p).value.1], ref)
    ensures ParseArgId(h, s, st, p) == WithPosition(h.onArgId(st, ref), ParseArgId(h, s, st, p).value.1)
  {
    hide NonnegativeInt;
    var q := ParseArgId(h, s, st, p).value.1;
    if s[p] == '}' || s[p] == ':' {
      ref := Auto;
    } else if IsDigit(s[p]) {
      ref := Index(if s[p] == '0' then 0 else NonnegativeInt(s[p..q], INT_MAX));
      if s[p] == '0' {
        ZeroIndex(s[p..q]);
      }
    } else {
      ref := Name(s[p..q]);
      NameEndRun(s, p + 1);
    }
  }

  /** A field at p whose reference ends at q. */
  predicate FieldAt(s: string, p: nat, q: nat, ref: ArgRef) {
    ReferenceAt(s, p + 1, q, ref)
  }

  /**
   The calls a field makes: the reference first, then the field itself or its specifications, with the number the
   reference gave. The position behind the closing brace is returned; the first error ends the field.
   */
  lemma FieldParsed<S(!new)>(h: Handler<S>, s: string, st: S, p: nat, q: nat, ref: ArgRef)
    requires FieldAt(s, p, q, ref)
    ensures var r := ParseReplacementField(h, s, st, p);
            match h.onArgId(st, ref)
            case Err(st1, message) => r == Err(st1, message)
            case Ok(st1, id) =>
              if s[q] == '}' then
                match h.onReplacementField(st1, id, q)
                case Err(st2, message) => r == Err(st2, message)
                case Ok(st2, _) => r == Ok(st2, q + 1)
              else
                match h.onFormatSpecs(st1, id, q + 1)
                case Err(st2, message) => r == Err(st2, message)
                case Ok(st2, e) =>
                  r == if e < |s| && s[e] == '}' then Ok(st2, e + 1) else Err(st2, "unknown format specifier")
  {
    hide ParseArgId;
    if s[p + 1] == '}' {
      assert q == p + 1 && ref == Auto;
    } else {
      if q > p + 1 {
        assert s[p + 1..q][0] == s[p + 1];
      }
      ReferenceParsed(h, s, st, p + 1, q, ref);
    }
  }

  /** And nothing else is accepted but a doubled opening brace, which stands for one. */
  lemma AcceptedFields<S(!new)>(h: Handler<S>, s: string, st: S, p: nat)
    requires p < |s| && ParseReplacementField(h, s, st, p).Ok?
    ensures p + 1 < |s|
    ensures s[p + 1] == '{' ==> ParseReplacementField(h, s, st, p) == Ok(h.onText(st, "{"), p + 2)
    ensures s[p + 1] != '{' ==>
              exists q: nat, ref :: FieldAt(s, p, q, ref)
  {
    hide ParseArgId, NonnegativeInt, IsName, FinishField;
    if s[p + 1] == '{' {
      assert s[p + 1..p + 2] == "{";
    } else if s[p + 1] == '}' {
      assert FieldAt(s, p, p + 1, Auto);
    } else {
      var ref := ParsedReference(h, s, st, p + 1);
      var q := ParseArgId(h, s, st, p + 1).value.1;
      assert FieldAt(s, p, q, ref);
    }
  }

  /** The characters names start with, by their codes. */
  lemma NameStarts(c: char)
    ensures IsNameStart(c) <==> 65 <= c as int <= 90 || c as int == 95 || 97 <= c as int <= 122
  {
  }

  /** A brace at the end, or in front of what starts no reference, is an error before anything is called. */
  lemma NoReference<S(!new)>(h: Handler<S>, s: string, st: S, p: nat)
    requires p < |s|
    requires p + 1 < |s| ==> s[p + 1] !in "{}:" && !IsDigit(s[p + 1]) && !IsNameStart(s[p + 1])
    ensures ParseReplacementField(h, s, st, p) == Err(st, "invalid format string")
  {
    assert '{' in "{}:" && '}' in "{}:" && ':' in "{}:";
  }

  /** So is a number that goes on, with anything but a closing brace or colon. */
  lemma BadNumber<S(!new)>(h: Handler<S>, s: string, st: S, p: nat, q: nat, number: int)
    requires p + 1 < q <= |s| && Reference(s[p + 1..q], Index(number))
    requires q < |s| ==> s[q] != '}' && s[q] != ':' && (IsDigit(s[q]) ==> s[p + 1] == '0')
    ensures ParseReplacementField(h, s, st, p) == Err(st, "invalid format string")
  {
    hide NonnegativeInt;
    var text := s[p + 1..q];
    assert text[0] == s[p + 1];
    if s[p + 1] != '0' {
      DigitsEndAt(s, p + 1, q);
    }
  }

  /** A name that goes on is an error after the handler was given the name. */
  lemma BadName<S(!new)>(h: Handler<S>, s: string, st: S, p: nat, q: nat, name: string)
    requires p + 1 < q <= |s| && Reference(s[p + 1..q], Name(name))
    requires q < |s| ==> s[q] != '}' && s[q] != ':' && !IsNameStart(s[q]) && !IsDigit(s[q])
    ensures var r := ParseReplacementField(h, s, st, p);
            match h.onArgId(st, Name(name))
            case Err(st1, message) => r == Err(st1, message)
            case Ok(st1, _) => r == Err(st1, "missing '}' in format string")
  {
    var text := s[p + 1..q];
    assert text[0] == s[p + 1];
    forall k | p + 1 <= k < q ensures IsNameStart(s[k]) || IsDigit(s[k]) {
      assert s[k] == text[k - p - 1];
    }
    NameEndAt(s, p + 2, q);
  }

  // ---- What both scans compute ----

  /** Parsing from p on, with the text from begin to p not yet reported. */
  ghost function Scan<S(!new)>(h: Handler<S>, s: string, st: S, begin: nat, p: nat): Result<S>
    requires SpecsInRange(h, |s|) && begin <= p <= |s|
    decreases |s| - p, 0
  {
    if p == |s| then Done(h.onText(st, s[begin..]))
    else if s[p] == '{' then ScanField(h, s, h.onText(st, s[begin..p]), p)
    else if s[p] == '}' then
      if p + 1 == |s| || s[p + 1] != '}' then Failed(st, UNMATCHED)
      else Scan(h, s, h.onText(st, s[begin..p + 1]), p + 2, p + 2)
    else Scan(h, s, st, begin, p + 1)
  }

  ghost function ScanField<S(!new)>(h: Handler<S>, s: string, st: S, p: nat): Result<S>
    requires SpecsInRange(h, |s|) && p < |s|
    decreases |s| - p - 1, 1
  {
    match ParseReplacementField(h, s, st, p)
    case Err(st1, message) => Failed(st1, message)
    case Ok(st1, q) => Scan(h, s, st1, q, q)
  }

  predicate NoBrace(s: string, p: nat, q: nat, c: char)
    requires q <= |s|
  {
    forall k :: p <= k < q ==> s[k] != c
  }

  /** Characters that are no braces are only collected. */
  lemma {:induction false} ScanSkips<S(!new)>(h: Handler<S>, s: string, st: S, begin: nat, p: nat, q: nat)
    requires SpecsInRange(h, |s|) && begin <= p <= q <= |s|
    requires NoBrace(s, p, q, '{') && NoBrace(s, p, q, '}')
    ensures Scan(h, s, st, begin, p) == Scan(h, s, st, begin, q)
    decreases q - p
  {
    if p < q {
      ScanSkips(h, s, st, begin, p + 1, q);
    }
  }

  // ---- The two algorithms ----

  /** Short strings: one loop over the characters. */
  method ParseShort<S(!new)>(h: Handler<S>, s: string, st0: S) returns (r: Result<S>)
    requires SpecsInRange(h, |s|)
    ensures r == Scan(h, s, st0, 0, 0)
  {
    var st, begin, p := st0, 0, 0;
    while p != |s|
      invariant 0 <= begin <= p <= |s|
      invariant Scan(h, s, st, begin, p) == Scan(h, s, st0, 0, 0)
      decreases |s| - p
    {
      var c := s[p];
      p := p + 1;
      if c == '{' {
        st := h.onText(st, s[begin..p - 1]);
        match ParseReplacementField(h, s, st, p - 1) {
          case Err(st1, message) => return Failed(st1, message);
          case Ok(st1, q) => st, begin, p := st1, q, q;
        }
      } else if c == '}' {
        if p == |s| || s[p] != '}' {
          return Failed(st, UNMATCHED);
        }
        st := h.onText(st, s[begin..p]);
        p := p + 1;
        begin := p;
      }
    }
    r := Done(h.onText(st, s[begin..]));
  }

  /** First position of c between first and last, or last when there is none. */
  function Next(s: string, first: nat, last: nat, c: char): (p: nat)
    requires first <= last <= |s|
    ensures first <= p <= last && NoBrace(s, first, p, c) && (p < last ==> s[p] == c)
    decreases last - first
  {
    if first == last || s[first] == c then first else Next(s, first + 1, last, c)
  }

  method Find(s: string, first: nat, last: nat, c: char) returns (found: bool, p: nat)
    requires first <= last <= |s|
    ensures p == Next(s, first, last, c) && (found <==> p < last)
  {
    p := first;
    while p != last
      invariant first <= p <= last && Next(s, p, last, c) == Next(s, first, last, c)
      decreases last - p
    {
      if s[p] == c {
        return true, p;
      }
      p := p + 1;
    }
    found := false;
  }

  /** What the long algorithm computes: a stretch without opening braces, undoing doubled closing ones. */
  ghost function Unescaped<S(!new)>(h: Handler<S>, s: string, st: S, begin: nat, end: nat): (r: Result<S>)
    requires begin <= end <= |s|
    decreases end - begin
  {
    var p := Next(s, begin, end, '}');
    if p == end then Done(h.onText(st, s[begin..end]))
    else if p + 1 == end || s[p + 1] != '}' then Failed(st, UNMATCHED)
    else Unescaped(h, s, h.onText(st, s[begin..p + 1]), p + 2, end)
  }

  ghost function Stretch<S(!new)>(h: Handler<S>, s: string, st: S, begin: nat, end: nat): (r: Result<S>)
    requires begin <= end <= |s|
  {
    if begin == end then Done(st) else Unescaped(h, s, st, begin, end)
  }

  /** And the stretches between the fields. */
  ghost function ScanLong<S(!new)>(h: Handler<S>, s: string, st: S, begin: nat): Result<S>
    requires SpecsInRange(h, |s|) && begin <= |s|
    decreases |s| - begin
  {
    if begin == |s| then Done(st)
    else
      var p := if s[begin] == '{' then begin else Next(s, begin + 1, |s|, '{');
      var written := Stretch(h, s, st, begin, p);
      if written.Failed? || p == |s| then written
      else
        match ParseReplacementField(h, s, written.state, p)
        case Err(st1, message) => Failed(st1, message)
        case Ok(st1, q) => ScanLong(h, s, st1, q)
  }

  /** The second pass over a stretch. */
  method Write<S(!new)>(h: Handler<S>, s: string, st0: S, begin: nat, end: nat) returns (r: Result<S>)
    requires begin <= end <= |s|
    ensures r == Stretch(h, s, st0, begin, end)
  {
    if begin == end {
      return Done(st0);
    }
    var st, b := st0, begin;
    while true
      invariant begin <= b <= end
      invariant Unescaped(h, s, st, b, end) == Unescaped(h, s, st0, begin, end)
      decreases end - b
    {
      var found, p := Find(s, b, end, '}');
      if !found {
        return Done(h.onText(st, s[b..end]));
      }
      p := p + 1;
      if p == end || s[p] != '}' {
        return Failed(st, UNMATCHED);
      }
      st := h.onText(st, s[b..p]);
      b := p + 1;
    }
  }

  /** Long strings: search for an opening brace, report the text before it, parse the field. */
  method ParseLong<S(!new)>(h: Handler<S>, s: string, st0: S) returns (r: Result<S>)
    requires SpecsInRange(h, |s|)
    ensures r == ScanLong(h, s, st0, 0)
  {
    var st, begin := st0, 0;
    while begin != |s|
      invariant begin <= |s|
      invariant ScanLong(h, s, st, begin) == ScanLong(h, s, st0, 0)
      decreases |s| - begin
    {
      var p := begin;
      if s[begin] != '{' {
        var found;
        found, p := Find(s, begin + 1, |s|, '{');
        if !found {
          r := Write(h, s, st, begin, |s|);
          return;
        }
      }
      var written := Write(h, s, st, begin, p);
      if written.Failed? {
        return written;
      }
      match ParseReplacementField(h, s, written.state, p) {
        case Err(st1, message) => return Failed(st1, message);
        case Ok(st1, q) => st, begin := st1, q;
      }
    }
    r := Done(st);
  }

  /** The length decides which algorithm runs. */
  method ParseFormatString<S(!new)>(h: Handler<S>, s: string, st: S) returns (r: Result<S>)
    requires SpecsInRange(h, |s|)
    ensures r == if |s| < 32 then Scan(h, s, st, 0, 0) else ScanLong(h, s, st, 0)
    ensures IgnoresEmptyText(h) ==> r == Scan(h, s, st, 0, 0)
  {
    if |s| < 32 {
      r := ParseShort(h, s, st);
    } else {
      r := ParseLong(h, s, st);
    }
    if IgnoresEmptyText(h) {
      LongIsScan(h, s, st, 0);
    }
  }

  // ---- When the two algorithms agree ----

  /** A stretch, seen by the scan. */
  lemma {:induction false} UnescapedIsScan<S(!new)>(h: Handler<S>, s: string, st: S, begin: nat, end: nat)
    requires SpecsInRange(h, |s|) && begin <= end <= |s|
    requires NoBrace(s, begin, end, '{') && (end < |s| ==> s[end] == '{')
    ensures var r := Unescaped(h, s, st, begin, end);
            Scan(h, s, st, begin, begin) == if r.Failed? || end == |s| then r else ScanField(h, s, r.state, end)
    decreases end - begin
  {
    hide ScanField, SpecsInRange;
    var p := Next(s, begin, end, '}');
    ScanSkips(h, s, st, begin, begin, p);
    if p == end {
      assert s[begin..] == s[begin..|s|];
    } else if p + 1 < end && s[p + 1] == '}' {
      UnescapedIsScan(h, s, h.onText(st, s[begin..p + 1]), p + 2, end);
    }
  }

  lemma StretchIsScan<S(!new)>(h: Handler<S>, s: string, st: S, begin: nat, end: nat)
    requires SpecsInRange(h, |s|) && IgnoresEmptyText(h) && begin <= end <= |s|
    requires NoBrace(s, begin, end, '{') && (end < |s| ==> s[end] == '{')
    ensures var r := Stretch(h, s, st, begin, end);
            Scan(h, s, st, begin, begin) == if r.Failed? || end == |s| then r else ScanField(h, s, r.state, end)
  {
    hide ScanField, SpecsInRange;
    if begin == end {
      assert s[begin..end] == "" && s[|s|..] == "";
    } else {
      UnescapedIsScan(h, s, st, begin, end);
    }
  }

  lemma {:induction false} LongIsScan<S(!new)>(h: Handler<S>, s: string, st: S, begin: nat)
    requires SpecsInRange(h, |s|) && IgnoresEmptyText(h) && begin <= |s|
    ensures ScanLong(h, s, st, begin) == Scan(h, s, st, begin, begin)
    decreases |s| - begin
  {
    hide ParseReplacementField, Stretch, SpecsInRange;
    if begin == |s| {
      assert s[|s|..] == "";
    } else {
      var p := if s[begin] == '{' then begin else Next(s, begin + 1, |s|, '{');
      StretchIsScan(h, s, st, begin, p);
      var written := Stretch(h, s, st, begin, p);
      if written.Done? && p < |s| && ParseReplacementField(h, s, written.state, p).Ok? {
        var field := ParseReplacementField(h, s, written.state, p);
        LongIsScan(h, s, field.state, field.value);
      }
    }
  }

  lemma EmptyString<S(!new)>(h: Handler<S>, st: S)
    requires SpecsInRange(h, 0)
    ensures Scan(h, "", st, 0, 0) == Done(h.onText(st, "")) && ScanLong(h, "", st, 0) == Done(st)
  {
    assert ""[0..] == "";
  }

  /** They agree on every string exactly for the handlers on which empty text has no effect. */
  lemma AgreeExactly<S(!new)>(h: Handler<S>)
    requires forall n: nat :: SpecsInRange(h, n)
    ensures IgnoresEmptyText(h) <==> forall s: string, st: S :: ScanLong(h, s, st, 0) == Scan(h, s, st, 0, 0)
  {
    if IgnoresEmptyText(h) {
      forall s: string, st: S ensures ScanLong(h, s, st, 0) == Scan(h, s, st, 0, 0) {
        LongIsScan(h, s, st, 0);
      }
    } else {
      var st: S :| h.onText(st, "") != st;
      EmptyString(h, st);
      assert ScanLong(h, "", st, 0) != Scan(h, "", st, 0, 0);
    }
  }

  // ---- The meaning of a format string, character by character ----

  /** Text arrives the same in one piece or in several. */
  ghost predicate AppendsText<S(!new)>(h: Handler<S>) {
    && IgnoresEmptyText(h)
    && forall st: S, a: string, b: string :: h.onText(h.onText(st, a), b) == h.onText(st, a + b)
  }

  ghost function Meaning<S(!new)>(h: Handler<S>, s: string, st: S, p: nat): Result<S>
    requires SpecsInRange(h, |s|) && p <= |s|
    decreases |s| - p
  {
    if p == |s| then Done(st)
    else if s[p] == '{' then
      match ParseReplacementField(h, s, st, p)
      case Err(st1, message) => Failed(st1, message)
      case Ok(st1, q) => Meaning(h, s, st1, q)
    else if s[p] == '}' then
      if p + 1 == |s| || s[p + 1] != '}' then Failed(st, UNMATCHED)
      else Meaning(h, s, h.onText(st, "}"), p + 2)
    else Meaning(h, s, h.onText(st, [s[p]]), p + 1)
  }

  /**
   Success with the same state, or the same error. At an unmatched brace the first parser has not reported the text
   in front of the brace; reporting it gives the state of the second one.
   */
  ghost predicate SameOutcome<S(!new)>(h: Handler<S>, a: Result<S>, b: Result<S>) {
    match a
    case Done(st) => b == Done(st)
    case Failed(st, message) =>
      b.Failed? && b.message == message && (b.state == st || (message == UNMATCHED && Pending(h, st, b.state)))
  }

  ghost predicate Pending<S(!new)>(h: Handler<S>, st: S, later: S) {
    exists text: string :: h.onText(st, text) == later
  }

  lemma Joined<S(!new)>(h: Handler<S>, st: S, a: string, b: string, ab: string)
    requires AppendsText(h) && a + b == ab
    ensures h.onText(h.onText(st, a), b) == h.onText(st, ab)
  {
  }

  lemma Nothing<S(!new)>(h: Handler<S>, st: S, s: string, p: nat)
    requires AppendsText(h) && p <= |s|
    ensures h.onText(st, s[p..p]) == st
  {
    assert s[p..p] == "";
  }

  /** The scan with its pieces of text means the same as going character by character. */
  lemma {:induction false} ScanMeans<S(!new)>(h: Handler<S>, s: string, st: S, begin: nat, p: nat)
    requires SpecsInRange(h, |s|) && AppendsText(h) && begin <= p <= |s|
    ensures SameOutcome(h, Scan(h, s, st, begin, p), Meaning(h, s, h.onText(st, s[begin..p]), p))
    decreases |s| - p
  {
    hide AppendsText, IgnoresEmptyText, ParseReplacementField;
    if p == |s| {
      assert s[begin..] == s[begin..p];
    } else if s[p] == '{' {
      match ParseReplacementField(h, s, h.onText(st, s[begin..p]), p) {
        case Err(_, _) =>
        case Ok(st1, q) =>
          ScanMeans(h, s, st1, q, q);
          Nothing(h, st1, s, q);
      }
    } else if s[p] == '}' {
      if p + 1 < |s| && s[p + 1] == '}' {
        var st1 := h.onText(st, s[begin..p + 1]);
        Joined(h, st, s[begin..p], "}", s[begin..p + 1]);
        ScanMeans(h, s, st1, p + 2, p + 2);
        Nothing(h, st1, s, p + 2);
      }
    } else {
      Joined(h, st, s[begin..p], [s[p]], s[begin..p + 1]);
      ScanMeans(h, s, st, begin, p + 1);
    }
  }

  /** Every format string means the same to both algorithms. */
  lemma ParseMeans<S(!new)>(h: Handler<S>, s: string, st: S)
    requires SpecsInRange(h, |s|) && AppendsText(h)
    ensures SameOutcome(h, Scan(h, s, st, 0, 0), Meaning(h, s, st, 0))
  {
    ScanMeans(h, s, st, 0, 0);
    assert s[0..0] == "";
  }

  // ---- Written format strings are parsed as what they were written from ----

  /** A piece of a format string: text, or an argument with a written reference and perhaps specifications. */
  datatype Piece = Text(text: string) | Argument(written: string, ref: ArgRef, specs: Option<string>)

  predicate WellFormed(x: Piece) {
    x.Argument? ==> Reference(x.written, x.ref) && (x.specs.Some? ==> '}' !in x.specs.value)
  }

  function DoubledOne(c: char): string {
    if c == '{' || c == '}' then [c, c] else [c]
  }

  /** Text with every brace doubled. */
  function Doubled(text: string): string {
    if text == "" then "" else DoubledOne(text[0]) + Doubled(text[1..])
  }

  function Written(x: Piece): string {
    match x
    case Text(text) => Doubled(text)
    case Argument(written, _, None) => "{" + written + "}"
    case Argument(written, _, Some(specs)) => "{" + written + ":" + specs + "}"
  }

  function Format(pieces: seq<Piece>): string {
    if pieces == [] then "" else Written(pieces[0]) + Format(pieces[1..])
  }

  /** What a handler can record: a character of text, a reference, a plain field, a field with specifications. */
  datatype Call = Character(c: char) | ArgId(ref: ArgRef) | Plain(id: int) | Specified(id: int, specs: string)

  function Characters(text: string): (calls: seq<Call>)
    ensures |calls| == |text|
  {
    seq(|text|, i requires 0 <= i < |text| => Character(text[i]))
  }

  /** The calls a piece should lead to, when lookup numbers the arguments. */
  function CallsOf(x: Piece, lookup: ArgRef -> int): seq<Call> {
    match x
    case Text(text) => Characters(text)
    case Argument(_, ref, None) => [ArgId(ref), Plain(lookup(ref))]
    case Argument(_, ref, Some(specs)) => [ArgId(ref), Specified(lookup(ref), specs)]
  }

  function AllCalls(pieces: seq<Piece>, lookup: ArgRef -> int): seq<Call> {
    if pieces == [] then [] else CallsOf(pieces[0], lookup) + AllCalls(pieces[1..], lookup)
  }

  /** The end of specifications that start at p: the next closing brace. */
  function SpecsEnd(s: string, p: nat): (e: nat)
    ensures p <= |s| ==> p <= e <= |s|
  {
    if p <= |s| then Next(s, p, |s|, '}') else p
  }

  function SpecsAt(s: string, p: nat): string {
    if p <= |s| then s[p..SpecsEnd(s, p)] else ""
  }

  /** A handler that records the calls it receives while s is parsed. */
  function Recorder(s: string, lookup: ArgRef -> int): Handler<seq<Call>> {
    Handler((calls, text) => calls + Characters(text),
            (calls, ref) => Ok(calls + [ArgId(ref)], lookup(ref)),
            (calls, id, p) => Ok(calls + [Plain(id)], ()),
            (calls, id, p) => Ok(calls + [Specified(id, SpecsAt(s, p))], SpecsEnd(s, p)))
  }

  lemma RecorderAppends(s: string, lookup: ArgRef -> int)
    ensures AppendsText(Recorder(s, lookup)) && SpecsInRange(Recorder(s, lookup), |s|)
  {
    var h := Recorder(s, lookup);
    forall calls: seq<Call> ensures h.onText(calls, "") == calls {
      assert calls + Characters("") == calls;
    }
    forall calls: seq<Call>, a: string, b: string
      ensures h.onText(h.onText(calls, a), b) == h.onText(calls, a + b)
    {
      assert (calls + Characters(a)) + Characters(b) == calls + Characters(a + b);
    }
  }

  /** What stands at position p. */
  predicate StandsAt(s: string, p: nat, text: string) {
    p + |text| <= |s| && s[p..p + |text|] == text
  }

  lemma StandsInTwo(s: string, p: nat, a: string, b: string)
    requires StandsAt(s, p, a + b)
    ensures StandsAt(s, p, a) && StandsAt(s, p + |a|, b)
  {
    assert s[p..p + |a|] == (a + b)[..|a|];
    assert s[p + |a|..p + |a| + |b|] == (a + b)[|a|..];
  }

  lemma CharacterMeans(s: string, lookup: ArgRef -> int, st: seq<Call>, p: nat, c: char)
    requires SpecsInRange(Recorder(s, lookup), |s|) && StandsAt(s, p, DoubledOne(c))
    ensures var h := Recorder(s, lookup);
            Meaning(h, s, st, p) == Meaning(h, s, st + Characters([c]), p + |DoubledOne(c)|)
  {
    var h, one := Recorder(s, lookup), DoubledOne(c);
    hide SpecsInRange;
    assert s[p] == s[p..p + |one|][0];
    if |one| == 2 {
      assert s[p + 1] == s[p..p + |one|][1];
      assert s[p + 1..p + 2] == [c];
      OneCharacter(s, lookup, st, p, c);
    } else {
      OneCharacter(s, lookup, st, p, c);
    }
  }

  lemma OneCharacter(s: string, lookup: ArgRef -> int, st: seq<Call>, p: nat, c: char)
    ensures Recorder(s, lookup).onText(st, [c]) == st + Characters([c])
  {
  }

  lemma {:induction false} TextMeans(s: string, lookup: ArgRef -> int, st: seq<Call>, p: nat, text: string)
    requires SpecsInRange(Recorder(s, lookup), |s|) && StandsAt(s, p, Doubled(text))
    ensures var h := Recorder(s, lookup);
            Meaning(h, s, st, p) == Meaning(h, s, st + Characters(text), p + |Doubled(text)|)
    decreases |text|
  {
    hide SpecsInRange, Meaning, Recorder, DoubledOne;
    if text == "" {
      assert st + Characters(text) == st;
    } else {
      var c := text[0];
      StandsInTwo(s, p, DoubledOne(c), Doubled(text[1..]));
      CharacterMeans(s, lookup, st, p, c);
      TextMeans(s, lookup, st + Characters([c]), p + |DoubledOne(c)|, text[1..]);
      assert (st + Characters([c])) + Characters(text[1..]) == st + Characters(text);
    }
  }

  /** A field with specifications, when the handler accepts both calls. */
  lemma SpecifiedField<S(!new)>(h: Handler<S>, s: string, st: S, p: nat, q: nat, ref: ArgRef,
                                named: S, id: int, later: S, e: nat)
    requires FieldAt(s, p, q, ref) && s[q] == ':' && e < |s| && s[e] == '}'
    requires h.onArgId(st, ref) == Ok(named, id) && h.onFormatSpecs(named, id, q + 1) == Ok(later, e)
    ensures ParseReplacementField(h, s, st, p) == Ok(later, e + 1)
  {
    hide ParseReplacementField;
    FieldParsed(h, s, st, p, q, ref);
  }

  /** A field that is accepted has the meaning of what follows it. */
  lemma FieldMeans<S(!new)>(h: Handler<S>, s: string, st: S, p: nat, later: S, next: nat)
    requires SpecsInRange(h, |s|) && p < next <= |s| && s[p] == '{'
    requires ParseReplacementField(h, s, st, p) == Ok(later, next)
    ensures Meaning(h, s, st, p) == Meaning(h, s, later, next)
  {
    hide ParseReplacementField;
  }

  lemma RecorderCalls(s: string, lookup: ArgRef -> int, st: seq<Call>, ref: ArgRef, id: int, p: nat)
    ensures var h := Recorder(s, lookup);
            && h.onArgId(st, ref) == Ok(st + [ArgId(ref)], lookup(ref))
            && h.onReplacementField(st + [ArgId(ref)], id, p) == Ok(st + [ArgId(ref), Plain(id)], ())
            && h.onFormatSpecs(st + [ArgId(ref)], id, p)
               == Ok(st + [ArgId(ref), Specified(id, SpecsAt(s, p))], SpecsEnd(s, p))
  {
    hide SpecsAt, SpecsEnd;
    assert (st + [ArgId(ref)]) + [Plain(id)] == st + [ArgId(ref), Plain(id)];
    var specified := Specified(id, SpecsAt(s, p));
    assert (st + [ArgId(ref)]) + [specified] == st + [ArgId(ref), specified];
  }

  lemma PlainMeans(s: string, lookup: ArgRef -> int, st: seq<Call>, p: nat, q: nat, ref: ArgRef)
    requires SpecsInRange(Recorder(s, lookup), |s|) && FieldAt(s, p, q, ref) && s[p] == '{' && s[q] == '}'
    ensures var h := Recorder(s, lookup);
            Meaning(h, s, st, p) == Meaning(h, s, st + [ArgId(ref), Plain(lookup(ref))], q + 1)
  {
    var h := Recorder(s, lookup);
    RecorderCalls(s, lookup, st, ref, lookup(ref), q);
    hide ParseReplacementField, SpecsInRange, Recorder, Meaning;
    FieldParsed(h, s, st, p, q, ref);
    FieldMeans(h, s, st, p, st + [ArgId(ref), Plain(lookup(ref))], q + 1);
  }

  lemma SpecifiedParsed(s: string, lookup: ArgRef -> int, st: seq<Call>, p: nat, q: nat, ref: ArgRef)
    requires FieldAt(s, p, q, ref) && s[q] == ':' && SpecsEnd(s, q + 1) < |s| && s[SpecsEnd(s, q + 1)] == '}'
    ensures ParseReplacementField(Recorder(s, lookup), s, st, p)
         == Ok(st + [ArgId(ref), Specified(lookup(ref), SpecsAt(s, q + 1))], SpecsEnd(s, q + 1) + 1)
  {
    RecorderCalls(s, lookup, st, ref, lookup(ref), q + 1);
    hide ParseReplacementField, Recorder, SpecsAt, SpecsEnd, FieldAt;
    SpecifiedField(Recorder(s, lookup), s, st, p, q, ref, st + [ArgId(ref)], lookup(ref),
                   st + [ArgId(ref), Specified(lookup(ref), SpecsAt(s, q + 1))], SpecsEnd(s, q + 1));
  }

  lemma SpecifiedMeans(s: string, lookup: ArgRef -> int, st: seq<Call>, p: nat, q: nat, ref: ArgRef, specs: string)
    requires SpecsInRange(Recorder(s, lookup), |s|) && FieldAt(s, p, q, ref) && s[p] == '{' && s[q] == ':'
    requires SpecsAt(s, q + 1) == specs && SpecsEnd(s, q + 1) == q + 1 + |specs| < |s| && s[q + 1 + |specs|] == '}'
    ensures var h := Recorder(s, lookup);
            var calls := st + [ArgId(ref), Specified(lookup(ref), specs)];
            Meaning(h, s, st, p) == Meaning(h, s, calls, q + 2 + |specs|)
  {
    hide ParseReplacementField, SpecsInRange, Recorder, Meaning, SpecsAt, SpecsEnd;
    SpecifiedParsed(s, lookup, st, p, q, ref);
    FieldMeans(Recorder(s, lookup), s, st, p, st + [ArgId(ref), Specified(lookup(ref), specs)], q + 2 + |specs|);
  }

  lemma NextBrace(s: string, p: nat, specs: string)
    requires StandsAt(s, p, specs) && StandsAt(s, p + |specs|, "}") && '}' !in specs
    ensures SpecsEnd(s, p) == p + |specs| && SpecsAt(s, p) == specs && s[p + |specs|] == '}'
  {
    assert s[p + |specs|] == s[p + |specs|..p + |specs| + 1][0];
    forall k | p <= k < p + |specs| ensures s[k] != '}' {
      assert s[k] == s[p..p + |specs|][k - p] == specs[k - p];
    }
  }

  lemma CharacterAt(s: string, p: nat, c: char)
    requires StandsAt(s, p, [c])
    ensures p < |s| && s[p] == c
  {
    assert s[p] == s[p..p + 1][0];
  }

  /** A brace and a reference in front of what ends it. */
  lemma ReferenceStands(s: string, p: nat, written: string, ref: ArgRef, c: char, tail: string)
    requires StandsAt(s, p, "{" + (written + ([c] + tail))) && Reference(written, ref) && (c == '}' || c == ':')
    ensures var q := p + 1 + |written|;
            FieldAt(s, p, q, ref) && s[p] == '{' && s[q] == c && StandsAt(s, q + 1, tail)
  {
    hide Reference, StandsAt;
    var q := p + 1 + |written|;
    StandsInTwo(s, p, "{", written + ([c] + tail));
    StandsInTwo(s, p + 1, written, [c] + tail);
    StandsInTwo(s, q, [c], tail);
    CharacterAt(s, p, '{');
    CharacterAt(s, q, c);
    StandingText(s, p + 1, written);
  }

  lemma StandingText(s: string, p: nat, text: string)
    requires StandsAt(s, p, text)
    ensures p + |text| <= |s| && s[p..p + |text|] == text
  {
  }

  lemma PlainAt(s: string, p: nat, written: string, ref: ArgRef)
    requires StandsAt(s, p, "{" + written + "}") && Reference(written, ref)
    ensures FieldAt(s, p, p + 1 + |written|, ref) && s[p] == '{' && s[p + 1 + |written|] == '}'
  {
    hide Reference, StandsAt, FieldAt;
    assert "{" + written + "}" == "{" + (written + (['}'] + ""));
    ReferenceStands(s, p, written, ref, '}', "");
  }

  lemma SpecifiedAt(s: string, p: nat, written: string, ref: ArgRef, specs: string)
    requires StandsAt(s, p, "{" + written + ":" + specs + "}") && Reference(written, ref) && '}' !in specs
    ensures var q := p + 1 + |written|;
            && FieldAt(s, p, q, ref) && s[p] == '{' && s[q] == ':'
            && SpecsAt(s, q + 1) == specs && SpecsEnd(s, q + 1) == q + 1 + |specs| < |s| && s[q + 1 + |specs|] == '}'
  {
    hide Reference, SpecsAt, SpecsEnd, StandsAt, FieldAt;
    var q, end := p + 1 + |written|, p + 2 + |written| + |specs|;
    assert "{" + written + ":" + specs + "}" == "{" + (written + ([':'] + (specs + "}")));
    ReferenceStands(s, p, written, ref, ':', specs + "}");
    StandsInTwo(s, q + 1, specs, "}");
    CharacterAt(s, end, '}');
    NextBrace(s, q + 1, specs);
  }

  lemma ArgumentMeans(s: string, lookup: ArgRef -> int, st: seq<Call>, p: nat, x: Piece)
    requires SpecsInRange(Recorder(s, lookup), |s|) && StandsAt(s, p, Written(x)) && x.Argument? && WellFormed(x)
    ensures var h := Recorder(s, lookup);
            Meaning(h, s, st, p) == Meaning(h, s, st + CallsOf(x, lookup), p + |Written(x)|)
  {
    hide SpecsInRange, Meaning, Recorder, SpecsAt, SpecsEnd, Reference, StandsAt, FieldAt;
    var q := p + 1 + |x.written|;
    match x.specs {
      case None =>
        PlainAt(s, p, x.written, x.ref);
        PlainMeans(s, lookup, st, p, q, x.ref);
      case Some(specs) =>
        SpecifiedAt(s, p, x.written, x.ref, specs);
        SpecifiedMeans(s, lookup, st, p, q, x.ref, specs);
    }
  }

  lemma PieceMeans(s: string, lookup: ArgRef -> int, st: seq<Call>, p: nat, x: Piece)
    requires SpecsInRange(Recorder(s, lookup), |s|) && StandsAt(s, p, Written(x)) && WellFormed(x)
    ensures var h := Recorder(s, lookup);
            Meaning(h, s, st, p) == Meaning(h, s, st + CallsOf(x, lookup), p + |Written(x)|)
  {
    hide Meaning, SpecsInRange, Recorder, Doubled, Characters, WellFormed, StandsAt;
    if x.Text? {
      TextMeans(s, lookup, st, p, x.text);
    } else {
      ArgumentMeans(s, lookup, st, p, x);
    }
  }

  lemma {:induction false} PiecesMean(s: string, lookup: ArgRef -> int, st: seq<Call>, p: nat, pieces: seq<Piece>)
    requires SpecsInRange(Recorder(s, lookup), |s|) && p <= |s| && s[p..] == Format(pieces)
    requires forall x :: x in pieces ==> WellFormed(x)
    ensures Meaning(Recorder(s, lookup), s, st, p) == Done(st + AllCalls(pieces, lookup))
    decreases |pieces|
  {
    hide Meaning, SpecsInRange, Recorder, Written, CallsOf, WellFormed, Characters;
    if pieces == [] {
      NothingLeft(s, lookup, st, p);
    } else {
      var x, rest := pieces[0], pieces[1..];
      assert s[p..p + |s[p..]|] == s[p..];
      StandsInTwo(s, p, Written(x), Format(rest));
      PieceMeans(s, lookup, st, p, x);
      PiecesMean(s, lookup, st + CallsOf(x, lookup), p + |Written(x)|, rest);
      assert (st + CallsOf(x, lookup)) + AllCalls(rest, lookup) == st + AllCalls(pieces, lookup);
    }
  }

  lemma NothingLeft(s: string, lookup: ArgRef -> int, st: seq<Call>, p: nat)
    requires SpecsInRange(Recorder(s, lookup), |s|) && p == |s|
    ensures Meaning(Recorder(s, lookup), s, st, p) == Done(st + [])
  {
    assert st + [] == st;
  }

  /**
   The round trip: a string written from any pieces, with braces in text doubled, is parsed by both algorithms as
   exactly the calls these pieces stand for, in their order.
   */
  lemma WrittenParsed(pieces: seq<Piece>, lookup: ArgRef -> int)
    requires forall x :: x in pieces ==> WellFormed(x)
    ensures var s, calls := Format(pieces), AllCalls(pieces, lookup);
            var h := Recorder(s, lookup);
            SpecsInRange(h, |s|) && Scan(h, s, [], 0, 0) == Done(calls) && ScanLong(h, s, [], 0) == Done(calls)
  {
    var s := Format(pieces);
    var h := Recorder(s, lookup);
    hide Scan, ScanLong, Meaning, Recorder, AppendsText, SpecsInRange;
    RecorderAppends(s, lookup);
    assert s[0..] == s && [] + AllCalls(pieces, lookup) == AllCalls(pieces, lookup);
    PiecesMean(s, lookup, [], 0, pieces);
    ParseMeans(h, s, []);
    AppendingIgnores(h);
    LongIsScan(h, s, [], 0);
  }

  lemma AppendingIgnores<S(!new)>(h: Handler<S>)
    requires AppendsText(h)
    ensures IgnoresEmptyText(h)
  {
  }

  /** A closing brace that is not doubled is an error, whatever the handler. */
  lemma SingleBrace<S(!new)>(h: Handler<S>, st: S)
    requires SpecsInRange(h, 1)
    ensures Scan(h, "}", st, 0, 0) == Failed(st, "unmatched '}' in format string")
  {
  }
}
