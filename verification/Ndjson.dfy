/**
 The expand stream: one JSON event per line, read by the console in chunks that may be cut
 anywhere. Decoding a line into an event is a parameter.
 */
module Ndjson {
  import opened Wrappers
  import opened Text

  /** What a line decodes to: no JSON at all, the JSON null, or an object of some type. */
  datatype Event<T> = Invalid | Null | Progress(detail: string) | Final(tags: seq<T>) | Error(message: string) | Other

  datatype Outcome<T> = Tags(tags: seq<T>) | Failed(event: Event<T>) | NoResult

  // ---- lines of a text -----------------------------------------------------

  function Lines(text: string): seq<string> {
    var parts := Split(text, '\n');
    parts[..|parts| - 1]
  }

  function Rest(text: string): string {
    var parts := Split(text, '\n');
    parts[|parts| - 1]
  }

  function Whole(chunks: seq<string>): string {
    if chunks == [] then "" else Whole(chunks[..|chunks| - 1]) + chunks[|chunks| - 1]
  }

  /** Split across a cut: the last part so far is continued by what follows. */
  function Continued(parts: seq<string>, b: string): seq<string>
    requires parts != []
  {
    parts[..|parts| - 1] + Split(parts[|parts| - 1] + b, '\n')
  }

  lemma {:induction false} SplitOfAppend(a: string, b: string)
    ensures Split(a + b, '\n') == Continued(Split(a, '\n'), b)
  {
    if a == "" {
      assert a + b == b && "" + b == b;
    } else {
      var c, d := a[0], a[1..];
      SplitOfAppend(d, b);
      assert a == [c] + d && a + b == [c] + (d + b);
      SplitOfCons(c, d, '\n');
      SplitOfCons(c, d + b, '\n');
      ContinuedOfCons(c, Split(d, '\n'), b);
    }
  }

  lemma ContinuedOfCons(c: char, t: seq<string>, b: string)
    requires t != []
    ensures c == '\n' ==> Continued([""] + t, b) == [""] + Continued(t, b)
    ensures c != '\n' ==> Continued([[c] + t[0]] + t[1..], b) == [[c] + Continued(t, b)[0]] + Continued(t, b)[1..]
  {
    var n := |t| - 1;
    if c == '\n' {
      assert ([""] + t)[..n + 1] == [""] + t[..n];
    } else if n == 0 {
      SplitOfCons(c, t[0] + b, '\n');
      assert ([c] + t[0]) + b == [c] + (t[0] + b);
    } else {
      ContinuedDeeper([c] + t[0], t, b);
    }
  }

  /** With more than one part, changing the first does not touch the continued one. */
  lemma ContinuedDeeper(first: string, t: seq<string>, b: string)
    requires |t| > 1
    ensures Continued([first] + t[1..], b) == [first] + Continued(t, b)[1..]
    ensures Continued(t, b)[0] == t[0]
  {
    var n := |t| - 1;
    var u := [first] + t[1..];
    var rest := Split(t[n] + b, '\n');
    assert u[n] == t[n] && u[..n] == [first] + t[1..n];
    assert (t[..n] + rest)[1..] == t[1..n] + rest;
  }

  /** Cutting a text leaves its complete lines to be found across the cut. */
  lemma LinesOfAppend(a: string, b: string)
    ensures Lines(a + b) == Lines(a) + Lines(Rest(a) + b)
    ensures Rest(a + b) == Rest(Rest(a) + b)
  {
    SplitOfAppend(a, b);
  }

  lemma FirstLine(buf: string, nl: nat)
    requires Index(buf, "\n") == Some(nl)
    ensures Lines(buf) == [buf[..nl]] + Lines(buf[nl + 1..])
    ensures Rest(buf) == Rest(buf[nl + 1..])
  {
    assert buf[nl..nl + 1] == "\n";
    assert buf == buf[..nl] + ['\n'] + buf[nl + 1..];
    forall i | 0 <= i < nl ensures buf[i] != '\n' {
      assert !OccursAt(buf, "\n", i);
      assert buf[i..i + 1] == [buf[i]];
    }
    SplitOfConcat(buf[..nl], '\n', buf[nl + 1..]);
  }

  lemma NoLine(buf: string)
    requires forall i: nat :: !OccursAt(buf, "\n", i)
    ensures Lines(buf) == [] && Rest(buf) == buf
  {
    forall i | 0 <= i < |buf| ensures buf[i] != '\n' {
      assert !OccursAt(buf, "\n", i);
      assert buf[i..i + 1] == [buf[i]];
    }
    SplitOfConcat(buf, '\n', "");
  }

  // ---- the meaning of a stream ------------------------------------------------

  predicate Stops<T>(e: Event<T>) {
    e.Null? || e.Error?
  }

  ghost predicate Runs<T>(es: seq<Event<T>>) {
    forall i | 0 <= i < |es| :: !Stops(es[i])
  }

  /** What the reader makes of a raw line: nothing if it is blank, otherwise its trimmed text decoded. */
  function Decoder<T>(parse: string -> Event<T>): string -> Option<Event<T>> {
    (raw: string) =>
      var line := TrimSpace(raw, JS_SPACE);
      if line == "" then None else Some(parse(line))
  }

  /** A line of nothing but white space is ignored; of any other the white space around it is, and the rest decoded. */
  lemma DecoderMeans<T>(raw: string, parse: string -> Event<T>) returns (a: string, t: string, b: string)
    ensures raw == a + t + b && AllSpace(a, JS_SPACE) && AllSpace(b, JS_SPACE) && Trimmed(t, JS_SPACE)
    ensures Decoder(parse)(raw) == if t == "" then None else Some(parse(t))
    ensures t == "" <==> AllSpace(raw, JS_SPACE)
  {
    a, t, b := TrimMeans(raw, JS_SPACE);
    FixedIffTrimmed(raw, JS_SPACE);
    if t == "" {
      assert forall i | 0 <= i < |raw| :: raw[i] == if i < |a| then a[i] else b[i - |a|];
    } else {
      assert raw[|a|] == t[0];
    }
  }

  function EventsOf<T>(lines: seq<string>, decode: string -> Option<Event<T>>): seq<Event<T>> {
    if lines == [] then []
    else
      var rest := EventsOf(lines[1..], decode);
      match decode(lines[0]) case None => rest case Some(e) => [e] + rest
  }

  function FirstStop<T>(es: seq<Event<T>>): (k: nat)
    ensures k <= |es|
    ensures forall i | 0 <= i < k :: !Stops(es[i])
    ensures k < |es| ==> Stops(es[k])
  {
    if es == [] || Stops(es[0]) then 0 else 1 + FirstStop(es[1..])
  }

  function LastResult<T>(es: seq<Event<T>>): Option<seq<T>> {
    if es == [] then None
    else
      var e := es[|es| - 1];
      if e.Final? then Some(e.tags) else LastResult(es[..|es| - 1])
  }

  /** A later result replaces an earlier one. */
  lemma {:induction false} LastResultIsLast<T>(es: seq<Event<T>>)
    ensures match LastResult(es)
            case None => forall i | 0 <= i < |es| :: !es[i].Final?
            case Some(tags) => exists i | 0 <= i < |es| :: es[i] == Final(tags) && forall j | i < j < |es| :: !es[j].Final?
  {
    if es != [] && !es[|es| - 1].Final? {
      var n := |es| - 1;
      LastResultIsLast(es[..n]);
      if LastResult(es[..n]).Some? {
        var tags := LastResult(es[..n]).value;
        var i :| 0 <= i < n && es[..n][i] == Final(tags) && forall j | i < j < n :: !es[..n][j].Final?;
        assert es[i] == Final(tags);
        assert forall j | i < j < n :: es[j] == es[..n][j];
      } else {
        assert forall j | 0 <= j < n :: es[j] == es[..n][j];
      }
    }
  }

  function ProgressOf<T>(es: seq<Event<T>>): seq<Event<T>> {
    if es == [] then []
    else
      var e := es[|es| - 1];
      ProgressOf(es[..|es| - 1]) + if e.Progress? then [e] else []
  }

  /** The outcome and the progress calls of a whole list of events. */
  function Meaning<T>(es: seq<Event<T>>): (Outcome<T>, seq<Event<T>>) {
    var k := FirstStop(es);
    var outcome :=
      if k < |es| then Failed(es[k])
      else match LastResult(es) case None => NoResult case Some(tags) => Tags(tags);
    (outcome, ProgressOf(es[..k]))
  }

  function MeaningOf<T>(text: string, decode: string -> Option<Event<T>>): (Outcome<T>, seq<Event<T>>) {
    Meaning(EventsOf(Lines(text), decode))
  }

  lemma EventsOfCons<T>(line: string, rest: seq<string>, decode: string -> Option<Event<T>>)
    ensures EventsOf([line] + rest, decode) ==
            match decode(line) case None => EventsOf(rest, decode) case Some(e) => [e] + EventsOf(rest, decode)
  {
    assert ([line] + rest)[1..] == rest;
  }

  lemma {:induction false} EventsOfConcat<T>(a: seq<string>, b: seq<string>, decode: string -> Option<Event<T>>)
    ensures EventsOf(a + b, decode) == EventsOf(a, decode) + EventsOf(b, decode)
    decreases |a|
  {
    if a == [] {
      assert a + b == b;
    } else {
      var line, c := HeadAndRest(a, b);
      EventsOfCons(line, c, decode);
      EventsOfCons(line, c + b, decode);
      EventsOfConcat(c, b, decode);
    }
  }

  lemma EventsOfCut<T>(a: string, b: string, decode: string -> Option<Event<T>>)
    ensures EventsOf(Lines(a + b), decode) == EventsOf(Lines(a), decode) + EventsOf(Lines(Rest(a) + b), decode)
  {
    LinesOfAppend(a, b);
    EventsOfConcat(Lines(a), Lines(Rest(a) + b), decode);
  }

  lemma Snoc<T>(done: seq<Event<T>>, e: Event<T>)
    ensures LastResult(done + [e]) == if e.Final? then Some(e.tags) else LastResult(done)
    ensures ProgressOf(done + [e]) == if e.Progress? then ProgressOf(done) + [e] else ProgressOf(done)
  {
    assert (done + [e])[..|done|] == done;
  }

  /** Once an event stops the stream, nothing after it changes the meaning. */
  lemma StopDecides<T>(done: seq<Event<T>>, e: Event<T>, skipped: seq<Event<T>>, more: seq<Event<T>>)
    requires Runs(done) && Stops(e)
    ensures Meaning(done + ([e] + skipped) + more) == (Failed(e), ProgressOf(done))
  {
    var es := done + ([e] + skipped) + more;
    assert es[|done|] == e;
    assert forall i | 0 <= i < |done| :: es[i] == done[i];
    assert es[..|done|] == done;
  }

  /** An error and the JSON null stop the stream; lines that do not decode, results and progress do not. */
  lemma WhatStops<T>(done: seq<Event<T>>, more: seq<Event<T>>, message: string, detail: string, tags: seq<T>)
    requires Runs(done)
    ensures Meaning(done + [Null] + more) == (Failed(Null), ProgressOf(done))
    ensures Meaning(done + [Error(message)] + more) == (Failed(Error(message)), ProgressOf(done))
    ensures Runs(done + [Invalid]) && Runs(done + [Other]) && Runs(done + [Progress(detail)]) && Runs(done + [Final(tags)])
  {
    var none: seq<Event<T>>, null_: seq<Event<T>>, error: seq<Event<T>> := [], [Null], [Error(message)];
    StopDecides(done, Null, none, more);
    StopDecides(done, Error(message), none, more);
    assert null_ + none == null_ && error + none == error;
  }

  lemma RunsToTheEnd<T>(es: seq<Event<T>>)
    requires Runs(es)
    ensures Meaning(es) ==
            ((match LastResult(es) case None => NoResult case Some(tags) => Tags(tags)), ProgressOf(es))
  {
    assert es[..|es|] == es;
  }

  // ---- the reader -----------------------------------------------------------------

  /** The events handled once a line was decoded. */
  function Seen<T>(done: seq<Event<T>>, e: Option<Event<T>>): seq<Event<T>> {
    if e.Some? && !Stops(e.value) then done + [e.value] else done
  }

  /** One line: the events seen so far grow by at most one. */
  method HandleLine<T>(raw: string, parse: string -> Event<T>, tags: Option<seq<T>>, progress: seq<Event<T>>,
                       ghost done: seq<Event<T>>)
    returns (stop: Option<Event<T>>, tags': Option<seq<T>>, progress': seq<Event<T>>)
    requires tags == LastResult(done) && progress == ProgressOf(done)
    ensures var e := Decoder(parse)(raw);
            && stop == (if e.Some? && Stops(e.value) then e else None)
            && tags' == LastResult(Seen(done, e)) && progress' == ProgressOf(Seen(done, e))
  {
    stop, tags', progress' := None, tags, progress;
    var line := TrimSpace(raw, JS_SPACE);
    if line == "" {
      return;
    }
    var ev := parse(line);
    if Stops(ev) {
      return Some(ev), tags, progress;
    }
    Snoc(done, ev);
    match ev {
      case Progress(_) => progress' := progress + [ev];
      case Final(found) => tags' := Some(found);
      case _ =>
    }
  }

  /** The lines completed by one more chunk: `done'` is the events handled, up to a stopping one. */
  method HandleChunk<T>(text: string, parse: string -> Event<T>, tags: Option<seq<T>>, progress: seq<Event<T>>,
                        ghost done: seq<Event<T>>)
    returns (stop: Option<Event<T>>, buf: string, tags': Option<seq<T>>, progress': seq<Event<T>>,
             ghost done': seq<Event<T>>, ghost skipped: seq<Event<T>>)
    requires tags == LastResult(done) && progress == ProgressOf(done) && Runs(done)
    ensures Runs(done') && progress' == ProgressOf(done')
    ensures stop.None? ==> buf == Rest(text) && tags' == LastResult(done')
    ensures stop.None? ==> done + EventsOf(Lines(text), Decoder(parse)) == done'
    ensures stop.Some? ==> Stops(stop.value)
    ensures stop.Some? ==> done + EventsOf(Lines(text), Decoder(parse)) == done' + ([stop.value] + skipped)
  {
    stop, buf, tags', progress', done', skipped := None, text, tags, progress, done, [];
    ghost var decode := Decoder(parse);
    ghost var all := done + EventsOf(Lines(text), decode);
    var nl := Index(buf, "\n");
    while nl.Some?
      invariant stop.None? && nl == Index(buf, "\n") && Rest(buf) == Rest(text)
      invariant all == done' + EventsOf(Lines(buf), decode)
      invariant Runs(done') && tags' == LastResult(done') && progress' == ProgressOf(done')
      decreases |buf|
    {
      var line, rest := buf[..nl.value], buf[nl.value + 1..];
      FirstLine(buf, nl.value);
      OneMoreLine(done', line, Lines(rest), decode);
      buf := rest;
      stop, tags', progress' := HandleLine(line, parse, tags', progress', done');
      done' := Seen(done', decode(line));
      if stop.Some? {
        skipped := EventsOf(Lines(rest), decode);
        return;
      }
      nl := Index(buf, "\n");
    }
    NoLine(buf);
    assert done' + [] == done';
  }

  lemma OneMoreLine<T>(done: seq<Event<T>>, line: string, rest: seq<string>, decode: string -> Option<Event<T>>)
    ensures decode(line).None? ==> EventsOf([line] + rest, decode) == EventsOf(rest, decode)
    ensures decode(line).Some? ==>
      done + EventsOf([line] + rest, decode) == done + [decode(line).value] + EventsOf(rest, decode)
    ensures decode(line).Some? ==>
      done + EventsOf([line] + rest, decode) == done + ([decode(line).value] + EventsOf(rest, decode))
  {
    EventsOfCons(line, rest, decode);
  }

  /** The reader's answer depends on the whole text alone, not on how it was cut. */
  method ExpandTags<T>(chunks: seq<string>, parse: string -> Event<T>)
    returns (outcome: Outcome<T>, progress: seq<Event<T>>)
    ensures (outcome, progress) == MeaningOf(Whole(chunks), Decoder(parse))
  {
    var buf := "";
    var tags: Option<seq<T>> := None;
    progress := [];
    ghost var decode := Decoder(parse);
    ghost var done: seq<Event<T>> := [];
    for c := 0 to |chunks|
      invariant buf == Rest(Whole(chunks[..c]))
      invariant done == EventsOf(Lines(Whole(chunks[..c])), decode) && Runs(done)
      invariant tags == LastResult(done) && progress == ProgressOf(done)
    {
      ghost var before := Whole(chunks[..c]);
      assert chunks[..c + 1][..c] == chunks[..c];
      LinesOfAppend(before, chunks[c]);
      EventsOfCut(before, chunks[c], decode);
      var stop;
      ghost var skipped;
      stop, buf, tags, progress, done, skipped := HandleChunk(buf + chunks[c], parse, tags, progress, done);
      if stop.Some? {
        WholeContinues(chunks, c + 1);
        EventsOfCut(before + chunks[c], Whole(chunks[c + 1..]), decode);
        StopDecides(done, stop.value, skipped, EventsOf(Lines(Rest(before + chunks[c]) + Whole(chunks[c + 1..])), decode));
        return Failed(stop.value), progress;
      }
    }
    assert chunks[..|chunks|] == chunks;
    RunsToTheEnd(done);
    outcome := match tags case None => NoResult case Some(found) => Tags(found);
  }

  lemma {:induction false} WholeContinues(chunks: seq<string>, c: nat)
    requires c <= |chunks|
    ensures Whole(chunks) == Whole(chunks[..c]) + Whole(chunks[c..])
    decreases |chunks| - c
  {
    if c == |chunks| {
      assert chunks[..c] == chunks;
    } else {
      var n := |chunks| - 1;
      WholeContinues(chunks[..n], c);
      assert chunks[..n][..c] == chunks[..c] && chunks[..n][c..] == chunks[c..][..n - c];
    }
  }

  // ---- the sender's stream --------------------------------------------------------

  /** The server's stream: every event encoded on a line of its own. */
  function Encoded<T>(es: seq<Event<T>>, enc: Event<T> -> string): string {
    if es == [] then "" else enc(es[0]) + ['\n'] + Encoded(es[1..], enc)
  }

  /** The encoder writes one line per event, and the reader decodes it back. */
  ghost predicate Faithful<T>(es: seq<Event<T>>, enc: Event<T> -> string, decode: string -> Option<Event<T>>) {
    forall i | 0 <= i < |es| :: '\n' !in enc(es[i]) && decode(enc(es[i])) == Some(es[i])
  }

  /** Encodings without white space at either end are decoded as they are. */
  lemma TrimmedLinesDecode<T>(line: string, parse: string -> Event<T>)
    requires line != "" && Trimmed(line, JS_SPACE)
    ensures Decoder(parse)(line) == Some(parse(line))
  {
    FixedIffTrimmed(line, JS_SPACE);
  }

  function Encodings<T>(es: seq<Event<T>>, enc: Event<T> -> string): seq<string> {
    seq(|es|, i requires 0 <= i < |es| => enc(es[i]))
  }

  lemma {:induction false} LinesOfEncoded<T>(es: seq<Event<T>>, enc: Event<T> -> string)
    requires forall i | 0 <= i < |es| :: '\n' !in enc(es[i])
    ensures Lines(Encoded(es, enc)) == Encodings(es, enc) && Rest(Encoded(es, enc)) == ""
  {
    if es != [] {
      LinesOfEncoded(es[1..], enc);
      SplitOfConcat(enc(es[0]), '\n', Encoded(es[1..], enc));
      assert Encodings(es, enc) == [enc(es[0])] + Encodings(es[1..], enc);
    }
  }

  lemma {:induction false} EncodingsDecode<T>(es: seq<Event<T>>, enc: Event<T> -> string, decode: string -> Option<Event<T>>)
    requires Faithful(es, enc, decode)
    ensures EventsOf(Encodings(es, enc), decode) == es
  {
    if es != [] {
      EncodingsDecode(es[1..], enc, decode);
      assert Encodings(es, enc)[1..] == Encodings(es[1..], enc);
    }
  }

  /** A complete stream of progress events and a result delivers exactly that, however it is cut into chunks. */
  lemma CompleteStreamDelivers<T>(progress: seq<Event<T>>, last: Event<T>, chunks: seq<string>,
                                  enc: Event<T> -> string, decode: string -> Option<Event<T>>)
    requires forall i | 0 <= i < |progress| :: progress[i].Progress?
    requires last.Final? || last.Error?
    requires Faithful(progress + [last], enc, decode)
    requires Whole(chunks) == Encoded(progress + [last], enc)
    ensures MeaningOf(Whole(chunks), decode) == (if last.Final? then Tags(last.tags) else Failed(last), progress)
  {
    var es := progress + [last];
    LinesOfEncoded(es, enc);
    EncodingsDecode(es, enc, decode);
    AllProgress(progress);
    if last.Error? {
      StopDecides(progress, last, [], []);
      assert progress + ([last] + []) + [] == es;
    } else {
      Snoc(progress, last);
      RunsToTheEnd(es);
    }
  }

  lemma {:induction false} AllProgress<T>(progress: seq<Event<T>>)
    requires forall i | 0 <= i < |progress| :: progress[i].Progress?
    ensures ProgressOf(progress) == progress && LastResult(progress) == None
  {
    if progress != [] {
      AllProgress(progress[..|progress| - 1]);
    }
  }

  /** A stream broken off anywhere before its last newline never yields tags, only the progress already received. */
  lemma BrokenStreamHasNoResult<T>(progress: seq<Event<T>>, last: Event<T>, got: string, lost: string,
                                   enc: Event<T> -> string, decode: string -> Option<Event<T>>)
    returns (k: nat)
    requires forall i | 0 <= i < |progress| :: progress[i].Progress?
    requires Faithful(progress + [last], enc, decode)
    requires got + lost == Encoded(progress + [last], enc) && lost != ""
    ensures k <= |progress| && MeaningOf(got, decode) == (NoResult, progress[..k])
  {
    LinesOfEncoded(progress + [last], enc);
    FewerLines(got, lost);
    k := |Lines(got)|;
    EncodingsOfPrefix(progress, last, k, enc);
    assert forall i | 0 <= i < k :: progress[..k][i] == (progress + [last])[i];
    ProgressOnly(progress[..k], enc, decode);
  }

  lemma EncodingsOfPrefix<T>(progress: seq<Event<T>>, last: Event<T>, k: nat, enc: Event<T> -> string)
    requires k <= |progress|
    ensures Encodings(progress + [last], enc)[..k] == Encodings(progress[..k], enc)
  {
  }

  lemma ProgressOnly<T>(progress: seq<Event<T>>, enc: Event<T> -> string, decode: string -> Option<Event<T>>)
    requires forall i | 0 <= i < |progress| :: progress[i].Progress?
    requires Faithful(progress, enc, decode)
    ensures Meaning(EventsOf(Encodings(progress, enc), decode)) == (NoResult, progress)
  {
    EncodingsDecode(progress, enc, decode);
    AllProgress(progress);
    RunsToTheEnd(progress);
  }

  /** What precedes the end of a newline-terminated text has fewer lines, and a prefix of them. */
  lemma FewerLines(got: string, lost: string)
    requires Rest(got + lost) == "" && lost != ""
    ensures |Lines(got)| < |Lines(got + lost)| && Lines(got) == Lines(got + lost)[..|Lines(got)|]
  {
    LinesOfAppend(got, lost);
    var tail := Rest(got) + lost;
    if Lines(tail) == [] {
      UnsplitIsWhole(tail);
    }
  }

  lemma {:induction false} UnsplitIsWhole(s: string)
    requires |Split(s, '\n')| == 1
    ensures Split(s, '\n') == [s]
  {
    if s != "" && s[0] != '\n' {
      UnsplitIsWhole(s[1..]);
      assert s == [s[0]] + s[1..];
    }
  }
}
