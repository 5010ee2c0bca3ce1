/**
 * The sequential steps of the threaded live load test: the dispatch step of
 * BootstrapConsumer (one fragment task per unpulled window entry, each
 * entry then marked pulled), the fragment URL and stream URL, the pause
 * after each dispatch, FragmentTask's zero-duration rule, the log and CSV
 * line texts, the pool sizes, and the seeding of one bootstrap task per
 * stream of the multi-level manifest.
 */
module LivePipeline {
  import opened Wrappers
  import opened PyText
  import opened Reconcile
  import opened ApacheBench

  const MaxBootstrapThreadCount: nat := 120
  const MaxFragmentThreadCount: nat := 120
  const MaxLogThreadCount: nat := 120

  /** The path between the server name and the stream name of a BootstrapTask's URLs. */
  const StreamPath := "/hds-live/streams/livepkgr/streams/_definst_/"

  /** BootstrapTask.stream_url (and bootstrap_url): built from the server and stream names only. */
  function StreamUrl(serverName: string, streamName: string): (r: string)
  {
    "http://" + serverName + StreamPath + streamName + "/" + streamName
  }

  /** Different streams of one server get different URLs. */
  lemma StreamUrlInjective(serverName: string, a: string, b: string)
    requires StreamUrl(serverName, a) == StreamUrl(serverName, b)
    ensures a == b
  {
    var prefix := "http://" + serverName + StreamPath;
    var ua := StreamUrl(serverName, a);
    assert ua == prefix + a + "/" + a;
    assert |a| == |b|;
    assert a == ua[|prefix|..|prefix| + |a|];
    assert b == StreamUrl(serverName, b)[|prefix|..|prefix| + |b|];
  }

  /** url + 'Seg' + str(segment).replace(' ', '') + '-Frag' + str(fragment) */
  function FragmentUrl(streamUrl: string, d: Descriptor): (r: string)
  {
    streamUrl + "Seg" + RemoveAll(d.segment, ' ') + "-Frag" + IntToString(d.fragment)
  }

  /** Within one stream and segment, different fragments get different URLs. */
  lemma FragmentUrlInjective(streamUrl: string, a: Descriptor, b: Descriptor)
    requires a.segment == b.segment
    requires FragmentUrl(streamUrl, a) == FragmentUrl(streamUrl, b)
    ensures a.fragment == b.fragment
  {
    var prefix := streamUrl + "Seg" + RemoveAll(a.segment, ' ') + "-Frag";
    var ta := IntToString(a.fragment);
    var tb := IntToString(b.fragment);
    assert FragmentUrl(streamUrl, a) == prefix + ta;
    assert FragmentUrl(streamUrl, b) == prefix + tb;
    assert ta == (prefix + ta)[|prefix|..];
    assert tb == (prefix + tb)[|prefix|..];
    IntToStringInjective(a.fragment, b.fragment);
  }

  /** The stream a BootstrapConsumer dispatches for, and the module-wide ab settings. */
  datatype Stream = Stream(name: string, url: string, numReq: int, concurrency: int)

  /** A FragmentTask: number, duration, ab settings, fragment URL, stream name, discontinuity. */
  datatype FragmentTask = FragmentTask(fragment: int, duration: int, numReq: int, concurrency: int,
                                       url: string, streamName: string, discontinuity: int)

  /** The task dispatched for one window entry. */
  function TaskFor(s: Stream, d: Descriptor): (r: FragmentTask)
  {
    FragmentTask(d.fragment, d.duration, s.numReq, s.concurrency, FragmentUrl(s.url, d), s.name, d.discontinuity)
  }

  /** The tasks the dispatch loop puts on the fragment queue, in window order. */
  function DispatchTasks(s: Stream, window: seq<Descriptor>): (r: seq<FragmentTask>)
  {
    if |window| == 0 then []
    else
      var last := window[|window| - 1];
      DispatchTasks(s, window[..|window| - 1]) + (if last.pulled then [] else [TaskFor(s, last)])
  }

  /** The window after the dispatch loop: every entry pulled, nothing else changed. */
  function MarkAllPulled(window: seq<Descriptor>): (r: seq<Descriptor>)
    ensures |r| == |window|
    ensures forall k :: 0 <= k < |r| ==> r[k].pulled && r[k].(pulled := window[k].pulled) == window[k]
  {
    seq(|window|, k requires 0 <= k < |window| => window[k].(pulled := true))
  }

  /**
   * The pause after dispatching an entry, in half-seconds: 1 s while
   * duration div 1000 is below 2, else duration div 1000 - 0.5 s.
   */
  function PauseHalfSeconds(duration: int): (r: nat)
  {
    var seconds := duration / 1000;
    if seconds < 2 then 2 else 2 * seconds - 1
  }

  /**
   * The pause is at least a second; below 2000 ms it is exactly a second,
   * and from 2000 ms on it ends between 0.5 s and 1.5 s before the
   * fragment's own duration.
   */
  lemma PauseBounds(duration: int)
    ensures PauseHalfSeconds(duration) >= 2
    ensures PauseHalfSeconds(duration) == 2 <==> duration < 2000
    ensures duration >= 2000 ==>
      duration - 1500 < 500 * PauseHalfSeconds(duration) <= duration - 500
  {
    var seconds := duration / 1000;
    assert 1000 * seconds <= duration < 1000 * seconds + 1000;
  }

  /**
   * The dispatch loop of BootstrapConsumer.run: for each entry not yet
   * pulled, put its task on the queue, mark it pulled and sleep; the
   * pauses are returned alongside the tasks.
   */
  method Dispatch(s: Stream, window: FragmentWindow) returns (tasks: seq<FragmentTask>, pauses: seq<nat>)
    modifies window
    ensures window.entries == MarkAllPulled(old(window.entries))
    ensures tasks == DispatchTasks(s, old(window.entries))
    ensures |pauses| == |tasks|
    ensures forall k :: 0 <= k < |tasks| ==> pauses[k] == PauseHalfSeconds(tasks[k].duration)
  {
    ghost var w0 := window.entries;
    tasks := [];
    pauses := [];
    for i := 0 to |window.entries|
      invariant |window.entries| == |w0|
      invariant forall k :: 0 <= k < |w0| ==> window.entries[k] == if k < i then w0[k].(pulled := true) else w0[k]
      invariant tasks == DispatchTasks(s, w0[..i])
      invariant |pauses| == |tasks|
      invariant forall k :: 0 <= k < |tasks| ==> pauses[k] == PauseHalfSeconds(tasks[k].duration)
    {
      var d := window.entries[i];
      assert w0[..i + 1][..i] == w0[..i];
      if !d.pulled {
        tasks := tasks + [TaskFor(s, d)];
        pauses := pauses + [PauseHalfSeconds(d.duration)];
        window.MarkPulled(i);
      }
    }
    assert w0[..|w0|] == w0;
  }

  /** Dispatching a concatenation dispatches the parts in turn. */
  lemma {:induction false} DispatchTasksAppend(s: Stream, a: seq<Descriptor>, b: seq<Descriptor>)
    ensures DispatchTasks(s, a + b) == DispatchTasks(s, a) + DispatchTasks(s, b)
  {
    if |b| > 0 {
      var init := b[..|b| - 1];
      assert (a + b)[..|a + b| - 1] == a + init;
      assert (a + b)[|a + b| - 1] == b[|b| - 1];
      DispatchTasksAppend(s, a, init);
    } else {
      assert a + b == a;
    }
  }

  /** One entry yields one task when it is unpulled and none when it is pulled. */
  lemma DispatchTasksSingle(s: Stream, d: Descriptor)
    ensures DispatchTasks(s, [d]) == if d.pulled then [] else [TaskFor(s, d)]
  {
    assert [d][..0] == [];
  }

  /** Every task comes from an unpulled entry, and every unpulled entry yields a task. */
  lemma {:induction false} DispatchTasksFromUnpulled(s: Stream, window: seq<Descriptor>)
    ensures forall k :: 0 <= k < |window| && !window[k].pulled ==> TaskFor(s, window[k]) in DispatchTasks(s, window)
    ensures forall t :: t in DispatchTasks(s, window) ==>
      exists k :: 0 <= k < |window| && !window[k].pulled && t == TaskFor(s, window[k])
  {
    if |window| > 0 {
      var init := window[..|window| - 1];
      var last := window[|window| - 1];
      DispatchTasksFromUnpulled(s, init);
      forall k | 0 <= k < |window| && !window[k].pulled
        ensures TaskFor(s, window[k]) in DispatchTasks(s, window)
      {
        if k < |init| {
          assert init[k] == window[k];
        }
      }
      forall t | t in DispatchTasks(s, window)
        ensures exists k :: 0 <= k < |window| && !window[k].pulled && t == TaskFor(s, window[k])
      {
        if t in DispatchTasks(s, init) {
          var k :| 0 <= k < |init| && !init[k].pulled && t == TaskFor(s, init[k]);
          assert window[k] == init[k];
        } else {
          assert !last.pulled && t == TaskFor(s, window[|window| - 1]);
        }
      }
    }
  }

  /** A window of unpulled entries yields one task per entry, in the same order. */
  lemma {:induction false} DispatchAllUnpulled(s: Stream, window: seq<Descriptor>)
    requires forall k :: 0 <= k < |window| ==> !window[k].pulled
    ensures |DispatchTasks(s, window)| == |window|
    ensures forall k :: 0 <= k < |window| ==> DispatchTasks(s, window)[k] == TaskFor(s, window[k])
  {
    if |window| > 0 {
      var init := window[..|window| - 1];
      DispatchAllUnpulled(s, init);
      forall k | 0 <= k < |window| ensures DispatchTasks(s, window)[k] == TaskFor(s, window[k]) {
        if k < |init| {
          assert init[k] == window[k];
        }
      }
    }
  }

  /** A second dispatch right after the first emits nothing and changes nothing. */
  lemma {:induction false} DispatchIdempotent(s: Stream, window: seq<Descriptor>)
    ensures DispatchTasks(s, MarkAllPulled(window)) == []
    ensures MarkAllPulled(MarkAllPulled(window)) == MarkAllPulled(window)
  {
    var marked := MarkAllPulled(window);
    DispatchAllPulled(s, marked);
    assert MarkAllPulled(marked) == marked by {
      forall k | 0 <= k < |marked| ensures MarkAllPulled(marked)[k] == marked[k] {
        assert marked[k].pulled;
      }
    }
  }

  /** A window whose entries are all pulled dispatches nothing. */
  lemma {:induction false} DispatchAllPulled(s: Stream, window: seq<Descriptor>)
    requires forall k :: 0 <= k < |window| ==> window[k].pulled
    ensures DispatchTasks(s, window) == []
  {
    if |window| > 0 {
      var init := window[..|window| - 1];
      assert forall k :: 0 <= k < |init| ==> init[k] == window[k];
      DispatchAllPulled(s, init);
    }
  }

  /** A window with unique fragment numbers gets tasks with unique fragment numbers. */
  lemma {:induction false} NoDuplicateDispatch(s: Stream, window: seq<Descriptor>)
    requires UniqueFragments(window)
    ensures forall i, j :: 0 <= i < j < |DispatchTasks(s, window)| ==>
      DispatchTasks(s, window)[i].fragment != DispatchTasks(s, window)[j].fragment
  {
    if |window| > 0 {
      var init := window[..|window| - 1];
      var last := window[|window| - 1];
      assert UniqueFragments(init) by {
        forall i, j | 0 <= i < j < |init| ensures init[i].fragment != init[j].fragment {
          assert init[i] == window[i] && init[j] == window[j];
        }
      }
      NoDuplicateDispatch(s, init);
      var before := DispatchTasks(s, init);
      if !last.pulled {
        DispatchTasksFromUnpulled(s, init);
        forall i | 0 <= i < |before| ensures before[i].fragment != last.fragment {
          assert before[i] in before;
          var k :| 0 <= k < |init| && !init[k].pulled && before[i] == TaskFor(s, init[k]);
          assert init[k] == window[k];
        }
        var all := DispatchTasks(s, window);
        assert all == before + [TaskFor(s, last)];
        forall i, j | 0 <= i < j < |all| ensures all[i].fragment != all[j].fragment {
          if j < |before| {
            assert all[i] == before[i] && all[j] == before[j];
          } else {
            assert all[i] == before[i];
          }
        }
      } else {
        assert DispatchTasks(s, window) == before + [];
      }
    }
  }

  /** Every descriptor a poll appends is unpulled. */
  lemma AppendedUnpulled(v: LiveView, window: seq<Descriptor>)
    requires |window| > 0
    ensures forall k :: 0 <= k < |Appended(v, window)| ==> !Appended(v, window)[k].pulled
  {
    if |window| > 1 {
      LaterPollDescending(v, window);
    }
  }

  /**
   * After a dispatch, the next poll's returned window holds an unpulled
   * descriptor exactly when that poll appended it.
   */
  lemma PolledUnpulledAreAppended(v: LiveView, window: seq<Descriptor>, d: Descriptor)
    requires |window| > 0
    ensures var marked := MarkAllPulled(window);
      (d in LivePoll(v, marked).window && !d.pulled) <==> d in Appended(v, marked)
  {
    var marked := MarkAllPulled(window);
    var added := Appended(v, marked);
    var polled := LivePoll(v, marked).window;
    PollWindowSorted(v, marked);
    AppendedUnpulled(v, marked);
    assert (d in polled) <==> d in multiset(polled);
    assert (d in marked + added) <==> d in multiset(marked + added);
    if d in marked {
      var k :| 0 <= k < |marked| && marked[k] == d;
    }
    if d in added {
      var k :| 0 <= k < |added| && added[k] == d;
    }
  }

  /**
   * Across a dispatch and the next poll: the next dispatch sends a task for
   * every descriptor that poll appended, and for no other descriptor.
   */
  lemma NextDispatchSendsAppended(s: Stream, v: LiveView, window: seq<Descriptor>, d: Descriptor)
    requires |window| > 0
    ensures var marked := MarkAllPulled(window);
      d in Appended(v, marked) ==> TaskFor(s, d) in DispatchTasks(s, LivePoll(v, marked).window)
    ensures var marked := MarkAllPulled(window);
      forall t :: t in DispatchTasks(s, LivePoll(v, marked).window) ==>
        exists e :: e in Appended(v, marked) && t == TaskFor(s, e)
  {
    var marked := MarkAllPulled(window);
    var polled := LivePoll(v, marked).window;
    DispatchTasksFromUnpulled(s, polled);
    PolledUnpulledAreAppended(v, window, d);
    forall t | t in DispatchTasks(s, polled) ensures exists e :: e in Appended(v, marked) && t == TaskFor(s, e) {
      var k :| 0 <= k < |polled| && !polled[k].pulled && t == TaskFor(s, polled[k]);
      PolledUnpulledAreAppended(v, window, polled[k]);
    }
    if d in Appended(v, marked) {
      var j :| 0 <= j < |polled| && polled[j] == d;
    }
  }

  /** The entry every stream's window starts with: pulled, so it is never dispatched. */
  const Placeholder := Descriptor("0", 0, 0, 0, true)

  /** A freshly seeded window dispatches nothing, and its first poll takes the single-entry branch. */
  lemma SeededWindowDispatchesNothing(s: Stream)
    ensures DispatchTasks(s, [Placeholder]) == []
  {
    DispatchTasksSingle(s, Placeholder);
  }

  /** One element of parse_live_mlm's list: the base URL first, then one dict per media tag. */
  datatype ManifestItem = BaseUrl(url: string) | Media(bitrate: string, href: string)

  /** The shape parse_live_mlm produces: the base URL comes first and only first. */
  predicate MlmShape(items: seq<ManifestItem>)
  {
    forall i :: 0 <= i < |items| ==> (i == 0 <==> items[i].BaseUrl?)
  }

  /** One dict of bootstrap_list. */
  datatype BootstrapEntry = BootstrapEntry(base: string, stream: string)

  /** A BootstrapTask as it is put on the bootstrap queue: its names, URLs and window. */
  datatype BootstrapTask = BootstrapTask(baseUrl: string, streamName: string, bootstrapUrl: string,
                                         streamUrl: string, window: seq<Descriptor>)

  /** href.split('.')[0]: the text before the first dot. */
  function StreamName(href: string): (r: string)
    ensures |r| <= |href| && '.' !in r && r == href[..|r|]
    ensures |r| < |href| ==> href[|r|] == '.'
  {
    HeadIsFirstPiece(href, '.');
    Split(href, '.')[0]
  }

  /** The task seeded for one stream: both URLs from the server and stream name, the placeholder window. */
  function SeedTask(base: string, name: string, serverName: string): (r: BootstrapTask)
  {
    BootstrapTask(base, name, StreamUrl(serverName, name), StreamUrl(serverName, name), [Placeholder])
  }

  /**
   * Lines 249-263: the first item is the base URL; every later media item
   * yields one bootstrap_list entry and one queued BootstrapTask.
   */
  method SeedStreams(items: seq<ManifestItem>, serverName: string)
    returns (streams: seq<BootstrapEntry>, tasks: seq<BootstrapTask>)
    requires MlmShape(items)
    ensures |streams| == |tasks| == if |items| == 0 then 0 else |items| - 1
    ensures forall k :: 0 <= k < |streams| ==>
      streams[k] == BootstrapEntry(items[0].url, StreamName(items[k + 1].href))
    ensures forall k :: 0 <= k < |tasks| ==>
      tasks[k] == SeedTask(items[0].url, StreamName(items[k + 1].href), serverName)
  {
    streams := [];
    tasks := [];
    var base := "";
    var i := 0;
    while i < |items|
      invariant 0 <= i <= |items|
      invariant i > 0 ==> base == items[0].url
      invariant |streams| == |tasks| == if i == 0 then 0 else i - 1
      invariant forall k :: 0 <= k < |streams| ==>
        streams[k] == BootstrapEntry(items[0].url, StreamName(items[k + 1].href))
      invariant forall k :: 0 <= k < |tasks| ==>
        tasks[k] == SeedTask(items[0].url, StreamName(items[k + 1].href), serverName)
    {
      var item := items[i];
      if i == 0 {
        base := item.url;
      } else {
        var name := StreamName(item.href);
        streams := streams + [BootstrapEntry(base, name)];
        tasks := tasks + [SeedTask(base, name, serverName)];
      }
      i := i + 1;
    }
  }

  /** Every seeded stream starts with a window the first poll treats as its first run. */
  lemma SeededTasksStartFresh(tasks: seq<BootstrapTask>, items: seq<ManifestItem>, serverName: string, s: Stream)
    requires MlmShape(items)
    requires |tasks| == (if |items| == 0 then 0 else |items| - 1)
    requires forall k :: 0 <= k < |tasks| ==>
      tasks[k] == SeedTask(items[0].url, StreamName(items[k + 1].href), serverName)
    ensures forall k :: 0 <= k < |tasks| ==>
      |tasks[k].window| == 1 && DispatchTasks(s, tasks[k].window) == [] &&
      tasks[k].streamUrl == StreamUrl(serverName, tasks[k].streamName)
  {
    SeededWindowDispatchesNothing(s);
  }

  /** (n > max) and max or n: the number of consumer threads of one pool. */
  function ConsumerCount(streams: nat, max: nat): (r: nat)
    ensures r <= streams && r <= max
    ensures r == streams || r == max
  {
    if streams > max then max else streams
  }

  /** The sizes of the bootstrap, fragment and log consumer pools. */
  datatype PoolSizes = PoolSizes(bootstrap: nat, fragment: nat, log: nat)

  /** Lines 266-269: each pool has one consumer per stream, at most 120. */
  function Pools(streams: nat): (r: PoolSizes)
    ensures r.bootstrap == r.fragment == r.log
    ensures r.bootstrap <= 120 && r.bootstrap <= streams
    ensures streams <= 120 ==> r.bootstrap == streams
  {
    PoolSizes(ConsumerCount(streams, MaxBootstrapThreadCount),
              ConsumerCount(streams, MaxFragmentThreadCount),
              ConsumerCount(streams, MaxLogThreadCount))
  }

  /** str(t < 10 and '0' + str(t) or t): a clock field with a leading zero below ten. */
  function Pad2(n: nat): (r: string)
    ensures IsDigits(r) && DigitsValue(r) == n
    ensures n < 100 ==> |r| == 2
  {
    NatToStringDigits(n);
    if n < 10 then "0" + NatToString(n)
    else
      assert n < 100 ==> |NatToString(n / 10)| == 1;
      NatToString(n)
  }

  /** int() reads a padded clock field back. */
  lemma Pad2ReadsBack(n: nat)
    ensures ParseInt(Pad2(n)) == Some(n)
  {
    var r := Pad2(n);
    assert r[0] != '-' && r[0] != '+';
    StripNoop(r, Whitespace);
  }

  /** '%s:%s:%s' % (h, m, s) */
  function Timestamp(h: nat, m: nat, s: nat): (r: string)
  {
    Pad2(h) + ":" + Pad2(m) + ":" + Pad2(s)
  }

  /** A clock time renders as HH:MM:SS in eight characters and splits back into its fields. */
  lemma TimestampReadsBack(h: nat, m: nat, s: nat)
    requires h < 100 && m < 100 && s < 100
    ensures |Timestamp(h, m, s)| == 8
    ensures Split(Timestamp(h, m, s), ':') == [Pad2(h), Pad2(m), Pad2(s)]
  {
    var a, b, c := Pad2(h), Pad2(m), Pad2(s);
    assert ':' !in a && ':' !in b && ':' !in c by {
      assert forall i :: 0 <= i < |a| ==> IsDigit(a[i]);
      assert forall i :: 0 <= i < |b| ==> IsDigit(b[i]);
      assert forall i :: 0 <= i < |c| ==> IsDigit(c[i]);
    }
    assert Timestamp(h, m, s) == a + [':'] + (b + [':'] + c);
    SplitTwoPieces(a, b, c, ':');
    SplitHasSecondPiece(c, ':');
  }

  /** The line TestTask appends to the log: '[' + time + '][' + level + '] ' + msg + newline. */
  function LogLine(time: string, level: string, msg: string): (r: string)
  {
    "[" + time + "][" + level + "] " + msg + "\n"
  }

  /** The time and the level come back as the first two ']'-pieces of a log line. */
  lemma LogLineFields(time: string, level: string, msg: string)
    requires ']' !in time && ']' !in level
    ensures Split(LogLine(time, level, msg), ']') == ["[" + time, "[" + level] + Split(" " + msg + "\n", ']')
  {
    var a, b := "[" + time, "[" + level;
    assert ']' !in a && ']' !in b;
    assert LogLine(time, level, msg) == a + [']'] + (b + [']'] + (" " + msg + "\n"));
    SplitTwoPieces(a, b, " " + msg + "\n", ']');
  }

  /** The line LogTask appends to the stream's CSV file. */
  function CsvLine(latency: string, throughput: string, non200s: string): (r: string)
  {
    latency + "," + throughput + "," + non200s + "\n"
  }

  /** The three figures come back as the comma-separated fields of a CSV line. */
  lemma CsvLineFields(latency: string, throughput: string, non200s: string)
    requires ',' !in latency && ',' !in throughput && ',' !in non200s
    ensures Split(CsvLine(latency, throughput, non200s), ',') == [latency, throughput, non200s + "\n"]
  {
    assert CsvLine(latency, throughput, non200s) == latency + [','] + (throughput + [','] + (non200s + "\n"));
    SplitTwoPieces(latency, throughput, non200s + "\n", ',');
    assert ',' !in non200s + "\n";
    SplitHasSecondPiece(non200s + "\n", ',');
  }

  /** The dict FragmentTask.__call__ returns; every value is a string. */
  datatype Answer = Answer(name: string, latency: string, throughput: string, non200: string, fragment: string)

  /** str() of a float extractor's answer: its 0, or the token it converted. */
  function ReadingText(r: Reading): (text: string)
  {
    match r
    case NoReading => "0"
    case Token(t) => t
  }

  /**
   * FragmentTask.__call__ on the lines ab printed for it: None for a zero
   * duration, otherwise the figures the extractors read (or the error one
   * of them raises).
   */
  function RunFragmentTask(task: FragmentTask, abLines: seq<string>): (r: Result<Option<Answer>>)
  {
    if task.duration == 0 then Ok(None)
    else
      match GetLatency(abLines)
      case Err(e) => Err(e)
      case Ok(latency) =>
        match GetRequestsPerSecond(abLines)
        case Err(e) => Err(e)
        case Ok(throughput) =>
          match GetNon2xxResponses(abLines)
          case Err(e) => Err(e)
          case Ok(non200) =>
            Ok(Some(Answer(task.streamName, ReadingText(latency), ReadingText(throughput),
                           IntToString(non200), IntToString(task.fragment))))
  }

  /** A task answers nothing exactly when its duration is zero. */
  lemma ZeroDurationNoAnswer(task: FragmentTask, abLines: seq<string>)
    ensures RunFragmentTask(task, abLines) == Ok(None) <==> task.duration == 0
    ensures RunFragmentTask(task, abLines).Ok? && task.duration != 0 ==>
      RunFragmentTask(task, abLines).value.Some? &&
      RunFragmentTask(task, abLines).value.value.fragment == IntToString(task.fragment)
  {
  }

  /**
   * What FragmentConsumer does with one task: the CSV lines its LogTask
   * writes, none when the task answers nothing.
   */
  function ConsumeFragment(task: FragmentTask, abLines: seq<string>): (r: Result<seq<string>>)
    ensures r.Ok? ==> (|r.value| == 0 <==> task.duration == 0)
    ensures r.Ok? ==> |r.value| <= 1
  {
    match RunFragmentTask(task, abLines)
    case Err(e) => Err(e)
    case Ok(None) => Ok([])
    case Ok(Some(a)) => Ok([CsvLine(a.latency, a.throughput, a.non200)])
  }
}
