/**
 * ApacheBench: the extractors that read single figures out of the lines ab
 * prints. Each scans for the first line whose text before the first ':' is
 * its key and reads the piece after that colon; an integer extractor parses
 * it with int(), a float extractor takes its first space-separated token
 * (float() itself is not modelled). Where the line has no colon, or int()
 * rejects the text, or get_latency finds fewer than three tokens, Python
 * raises, which is Err here; no matching line at all yields 0.
 */
module ApacheBench {
  import opened Wrappers
  import opened PyText

  const TimeTakenKey := "Time taken for tests"
  const CompleteRequestsKey := "Complete requests"
  const RequestsPerSecondKey := "Requests per second"
  const TimePerRequestKey := "Time per request"
  const Non2xxKey := "Non-2xx responses"
  /** The third token that marks the mean time per request. */
  const MeanMarker := "(mean)"
  /** The characters strip(' ') removes. */
  const Spaces: set<char> := {' '}

  /** A float extractor's answer: the 0 it returns when no line matches, or the token it converts. */
  datatype Reading = NoReading | Token(text: string)

  /** line.split(':')[1].strip(' '): the piece after the first colon, IndexError without one. */
  function AfterColon(line: string): (r: Result<string>)
    ensures r.Ok? <==> ':' in line
  {
    SplitHasSecondPiece(line, ':');
    var parts := Split(line, ':');
    if |parts| < 2 then Err(IndexError) else Ok(Strip(parts[1], Spaces))
  }

  /** int(line.split(':')[1].strip(' ')) */
  function IntValue(line: string): (r: Result<int>)
    ensures r.Err? <==> AfterColon(line).Err? || ParseInt(AfterColon(line).value).None?
  {
    match AfterColon(line)
    case Err(e) => Err(e)
    case Ok(v) =>
      match ParseInt(v)
      case None => Err(ValueError)
      case Some(n) => Ok(n)
  }

  /** line.split(':')[1].strip(' ').split(' ')[0] */
  function FirstToken(line: string): (r: Result<Reading>)
    ensures r.Ok? <==> ':' in line
    ensures r.Ok? ==> r.value.Token? && ' ' !in r.value.text
  {
    match AfterColon(line)
    case Err(e) => Err(e)
    case Ok(v) =>
      HeadIsFirstPiece(v, ' ');
      Ok(Token(Split(v, ' ')[0]))
  }

  /** The loop of get_total_requests and get_non_2xx_responses: the first keyed line's integer, else 0. */
  function KeyedInt(lines: seq<string>, key: string): (r: Result<int>)
  {
    if |lines| == 0 then Ok(0)
    else if Key(lines[0]) == key then IntValue(lines[0])
    else KeyedInt(lines[1..], key)
  }

  /** The loop of get_time_taken and get_requests_per_second: the first keyed line's token, else 0. */
  function KeyedToken(lines: seq<string>, key: string): (r: Result<Reading>)
  {
    if |lines| == 0 then Ok(NoReading)
    else if Key(lines[0]) == key then FirstToken(lines[0])
    else KeyedToken(lines[1..], key)
  }

  /** ApacheBench.get_total_requests */
  function GetTotalRequests(lines: seq<string>): (r: Result<int>)
  {
    KeyedInt(lines, CompleteRequestsKey)
  }

  /** ApacheBench.get_non_2xx_responses */
  function GetNon2xxResponses(lines: seq<string>): (r: Result<int>)
  {
    KeyedInt(lines, Non2xxKey)
  }

  /** ApacheBench.get_time_taken: the token is stripped of spaces once more before float(). */
  function GetTimeTaken(lines: seq<string>): (r: Result<Reading>)
  {
    match KeyedToken(lines, TimeTakenKey)
    case Ok(Token(t)) => Ok(Token(Strip(t, Spaces)))
    case r => r
  }

  /** ApacheBench.get_requests_per_second */
  function GetRequestsPerSecond(lines: seq<string>): (r: Result<Reading>)
  {
    KeyedToken(lines, RequestsPerSecondKey)
  }

  /**
   * ApacheBench.get_latency: the first "Time per request" line whose third
   * token is "(mean)"; such lines with another third token are passed over.
   */
  function GetLatency(lines: seq<string>): (r: Result<Reading>)
  {
    if |lines| == 0 then Ok(NoReading)
    else if Key(lines[0]) == TimePerRequestKey then
      match AfterColon(lines[0])
      case Err(e) => Err(e)
      case Ok(v) =>
        var tokens := Split(v, ' ');
        if |tokens| < 3 then Err(IndexError)
        else if tokens[2] == MeanMarker then Ok(Token(tokens[0]))
        else GetLatency(lines[1..])
    else GetLatency(lines[1..])
  }

  /** The integer scan answers from the first keyed line the search finds, and 0 when there is none. */
  lemma {:induction false} KeyedIntFirstMatch(lines: seq<string>, key: string)
    ensures FindKeyedLine(lines, key).None? ==> KeyedInt(lines, key) == Ok(0)
    ensures FindKeyedLine(lines, key).Some? ==> KeyedInt(lines, key) == IntValue(lines[FindKeyedLine(lines, key).value])
  {
    if |lines| > 0 && Key(lines[0]) != key {
      KeyedIntFirstMatch(lines[1..], key);
    }
  }

  /** The token scan answers from the first keyed line, and NoReading exactly when there is none. */
  lemma {:induction false} KeyedTokenFirstMatch(lines: seq<string>, key: string)
    ensures FindKeyedLine(lines, key).None? <==> KeyedToken(lines, key) == Ok(NoReading)
    ensures FindKeyedLine(lines, key).Some? ==> KeyedToken(lines, key) == FirstToken(lines[FindKeyedLine(lines, key).value])
  {
    if |lines| > 0 && Key(lines[0]) != key {
      KeyedTokenFirstMatch(lines[1..], key);
    }
  }

  /** Lines after a keyed line are never read: the loop has returned by then. */
  lemma KeyedIntIgnoresLater(lines: seq<string>, more: seq<string>, key: string)
    requires FindKeyedLine(lines, key).Some?
    ensures KeyedInt(lines + more, key) == KeyedInt(lines, key)
  {
    FindKeyedLineAppend(lines, more, key);
    KeyedIntFirstMatch(lines, key);
    KeyedIntFirstMatch(lines + more, key);
    assert (lines + more)[FindKeyedLine(lines, key).value] == lines[FindKeyedLine(lines, key).value];
  }

  /** Lines after a keyed line are never read by the token scans either. */
  lemma KeyedTokenIgnoresLater(lines: seq<string>, more: seq<string>, key: string)
    requires FindKeyedLine(lines, key).Some?
    ensures KeyedToken(lines + more, key) == KeyedToken(lines, key)
  {
    FindKeyedLineAppend(lines, more, key);
    KeyedTokenFirstMatch(lines, key);
    KeyedTokenFirstMatch(lines + more, key);
    assert (lines + more)[FindKeyedLine(lines, key).value] == lines[FindKeyedLine(lines, key).value];
  }

  /** A line "key:" + spaces + str(n) reads back as n. */
  lemma IntLineReadsBack(key: string, pad: string, n: int)
    requires ':' !in key
    requires forall i :: 0 <= i < |pad| ==> pad[i] == ' '
    ensures Key(key + ":" + pad + IntToString(n)) == key
    ensures IntValue(key + ":" + pad + IntToString(n)) == Ok(n)
  {
    var digits := IntToString(n);
    IntToStringDigits(n);
    var line := key + ":" + pad + digits;
    assert ':' !in pad + digits by {
      assert forall i :: 0 <= i < |pad + digits| ==> (pad + digits)[i] == ' ' || (pad + digits)[i] == '-' || IsDigit((pad + digits)[i]);
    }
    assert line == key + [':'] + (pad + digits);
    SplitAfterPiece(key, ':', pad + digits);
    SplitHasSecondPiece(pad + digits, ':');
    HeadIsFirstPiece(line, ':');
    StripPadded(pad, digits, Spaces);
    ParseIntToString(n);
  }

  /** A line "key:" + spaces + a token, a space and more text reads back as that token. */
  lemma TokenLineReadsBack(key: string, pad: string, value: string, more: string)
    requires ':' !in key && ':' !in value && ':' !in more
    requires forall i :: 0 <= i < |pad| ==> pad[i] == ' '
    requires value != [] && value[0] != ' ' && ' ' !in value
    requires more != [] && more[|more| - 1] != ' '
    ensures Key(key + ":" + pad + value + " " + more) == key
    ensures FirstToken(key + ":" + pad + value + " " + more) == Ok(Token(value))
  {
    var rest := value + " " + more;
    var line := key + ":" + pad + value + " " + more;
    assert line == key + [':'] + (pad + rest);
    assert ':' !in pad + rest by {
      assert forall i :: 0 <= i < |pad + rest| ==> (pad + rest)[i] != ':';
    }
    SplitAfterPiece(key, ':', pad + rest);
    SplitHasSecondPiece(pad + rest, ':');
    HeadIsFirstPiece(line, ':');
    assert pad + rest == pad + (value + " " + more);
    StripPadded(pad, rest, Spaces);
    assert rest == value + [' '] + more;
    SplitAfterPiece(value, ' ', more);
  }

  /** What get_latency does with a "Time per request" line that has three tokens. */
  lemma LatencyOnLine(line: string, rest: seq<string>, tokens: seq<string>)
    requires Key(line) == TimePerRequestKey && AfterColon(line).Ok?
    requires tokens == Split(AfterColon(line).value, ' ') && |tokens| >= 3
    ensures GetLatency([line] + rest) == if tokens[2] == MeanMarker then Ok(Token(tokens[0])) else GetLatency(rest)
  {
    var input := [line] + rest;
    assert input[0] == line && input[1..] == rest;
  }

  /**
   * ab's "Time per request: v [ms] (mean)" line gives v; the line that
   * follows it, whose third token is "(mean," and not "(mean)", is passed over.
   */
  lemma LatencyReadsMeanLine(pad: string, value: string, unit: string, rest: seq<string>)
    requires forall i :: 0 <= i < |pad| ==> pad[i] == ' '
    requires value != [] && value[0] != ' ' && ' ' !in value && ':' !in value
    requires ' ' !in unit && ':' !in unit
    ensures GetLatency([TimePerRequestKey + ":" + pad + value + " " + unit + " " + MeanMarker] + rest) == Ok(Token(value))
  {
    var tail := value + [' '] + (unit + [' '] + MeanMarker);
    var line := TimePerRequestKey + ":" + pad + tail;
    assert TimePerRequestKey + ":" + pad + value + " " + unit + " " + MeanMarker == line;
    TimePerRequestLine(pad, tail);
    assert ' ' !in MeanMarker;
    SplitThreePieces(value, unit, MeanMarker, ' ');
    LatencyOnLine(line, rest, Split(tail, ' '));
  }

  /** A "Time per request" line whose third token is not "(mean)" is passed over. */
  lemma LatencySkipsOtherLine(pad: string, value: string, unit: string, third: string, more: string,
                              rest: seq<string>)
    requires forall i :: 0 <= i < |pad| ==> pad[i] == ' '
    requires value != [] && value[0] != ' ' && ' ' !in value && ':' !in value
    requires ' ' !in unit && ':' !in unit && ' ' !in third && ':' !in third && ':' !in more
    requires third != MeanMarker
    requires more != [] && more[|more| - 1] != ' '
    ensures GetLatency([TimePerRequestKey + ":" + pad + value + " " + unit + " " + third + " " + more] + rest)
      == GetLatency(rest)
  {
    var tail := value + [' '] + (unit + [' '] + (third + [' '] + more));
    var line := TimePerRequestKey + ":" + pad + tail;
    assert TimePerRequestKey + ":" + pad + value + " " + unit + " " + third + " " + more == line;
    TimePerRequestLine(pad, tail);
    SplitTwoPieces(value, unit, third + [' '] + more, ' ');
    SplitAfterPiece(third, ' ', more);
    LatencyOnLine(line, rest, Split(tail, ' '));
  }

  /** A "Time per request:" line with spaces, then colon-free text starting and ending with no space. */
  lemma TimePerRequestLine(pad: string, tail: string)
    requires forall i :: 0 <= i < |pad| ==> pad[i] == ' '
    requires ':' !in tail && tail != [] && tail[0] != ' ' && tail[|tail| - 1] != ' '
    ensures Key(TimePerRequestKey + ":" + pad + tail) == TimePerRequestKey
    ensures AfterColon(TimePerRequestKey + ":" + pad + tail) == Ok(tail)
  {
    assert ':' !in TimePerRequestKey;
    ColonFreeLine(TimePerRequestKey, pad, tail);
    StripPadded(pad, tail, Spaces);
  }

  /** The key and the colon-free text after "key:" of a line. */
  lemma ColonFreeLine(key: string, pad: string, tail: string)
    requires ':' !in key && ':' !in pad && ':' !in tail
    ensures Key(key + ":" + pad + tail) == key
    ensures AfterColon(key + ":" + pad + tail) == Ok(Strip(pad + tail, Spaces))
  {
    var line := key + ":" + pad + tail;
    assert line == key + [':'] + (pad + tail);
    assert ':' !in pad + tail by {
      assert forall i :: 0 <= i < |pad + tail| ==> (pad + tail)[i] != ':';
    }
    SplitAfterPiece(key, ':', pad + tail);
    SplitHasSecondPiece(pad + tail, ':');
    HeadIsFirstPiece(line, ':');
  }

  /** get_latency returns 0 when no line carries its key. */
  lemma {:induction false} LatencyNoKey(lines: seq<string>)
    requires FindKeyedLine(lines, TimePerRequestKey).None?
    ensures GetLatency(lines) == Ok(NoReading)
  {
    if |lines| > 0 {
      assert Key(lines[0]) != TimePerRequestKey;
      assert FindKeyedLine(lines[1..], TimePerRequestKey).None? by {
        forall j | 0 <= j < |lines| - 1 ensures Key(lines[1..][j]) != TimePerRequestKey {
          assert lines[1..][j] == lines[j + 1];
        }
      }
      LatencyNoKey(lines[1..]);
    }
  }

  /** The extra strip in get_time_taken changes nothing: a token holds no spaces. */
  lemma TimeTakenIsFirstToken(lines: seq<string>)
    ensures GetTimeTaken(lines) == KeyedToken(lines, TimeTakenKey)
  {
    KeyedTokenFirstMatch(lines, TimeTakenKey);
    match KeyedToken(lines, TimeTakenKey)
    case Ok(Token(t)) =>
      if t != [] {
        StripNoop(t, Spaces);
      }
    case _ =>
  }
}
