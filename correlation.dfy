/** The reception test (reception_tests/map.go): which lines of a GDL90 log
    count as received uplink messages, how they are matched to the points of
    a flight's track log, and which points are plotted.

    Timestamps are integers in nanoseconds; turning the log's decimal
    seconds into nanoseconds (a float parse) is a function parameter. */
module Correlation {
  import opened Wrappers
  import opened Text
  import Seqs

  /** `TS_TOLERANCE`: one second, in nanoseconds. */
  const Tolerance: int := 1_000_000_000

  datatype Message = Message(ts: int, data: string)

  datatype Track = Track(ts: int, lat: real, lng: real, alt: real, associated: seq<Message>)

  // ---- reading the log ----

  /** What the scanner loop makes of one line. */
  datatype LineOutcome = Skipped | Panic | Kept(msg: Message)

  /** The prefix of an uplink message in the log's hex data. */
  const UplinkPrefix: string := "7e07"

  function ReadLine(s: string, parseTime: string -> Option<int>): (r: LineOutcome)
    ensures r.Kept? ==> |Split(s, ',')| >= 2 && r.msg.data == Split(s, ',')[1]
    ensures r.Kept? ==> StartsWith(r.msg.data, UplinkPrefix)
    ensures r.Kept? ==> Some(r.msg.ts) == parseTime(Split(s, ',')[0])
    ensures r == Panic <==>
      |Split(s, ',')| >= 2 && |s| > 0 && s[0] != '#' &&
      (|Split(s, ',')[1]| < 4 || (StartsWith(Split(s, ',')[1], UplinkPrefix) && parseTime(Split(s, ',')[0]).None?))
    ensures |Split(s, ',')| >= 2 && |s| > 0 && s[0] != '#' && StartsWith(Split(s, ',')[1], UplinkPrefix) &&
            parseTime(Split(s, ',')[0]).Some? ==>
      r == Kept(Message(parseTime(Split(s, ',')[0]).value, Split(s, ',')[1]))
  {
    var x := Split(s, ',');
    if |x| < 2 || s[0] == '#' then Skipped
    else if |x[1]| < 4 then Panic
    else if x[1][..4] != UplinkPrefix then Skipped
    else
      match parseTime(x[0])
      case None => Panic
      case Some(ts) => Kept(Message(ts, x[1]))
  }

  lemma SplitOfEmpty(sep: char)
    ensures Split([], sep) == [[]]
  {
  }

  /** The field-count check comes first: an empty line is skipped without
      looking at its first character, and so is any comment line. */
  lemma SkippedLines(s: string, parseTime: string -> Option<int>)
    ensures s == [] ==> ReadLine(s, parseTime) == Skipped
    ensures |s| > 0 && s[0] == '#' ==> ReadLine(s, parseTime) == Skipped
    ensures (forall i :: 0 <= i < |s| ==> s[i] != ',') ==> ReadLine(s, parseTime) == Skipped
  {
    if forall i :: 0 <= i < |s| ==> s[i] != ',' {
      SplitWithoutSeparator(s, ',');
    }
  }

  /** A kept line's data is a single field of the line. */
  lemma KeptDataHasNoComma(s: string, parseTime: string -> Option<int>)
    requires ReadLine(s, parseTime).Kept?
    ensures forall i :: 0 <= i < |ReadLine(s, parseTime).msg.data| ==> ReadLine(s, parseTime).msg.data[i] != ','
  {
    SplitFieldsHaveNoSeparator(s, ',');
    assert ReadLine(s, parseTime).msg.data == Split(s, ',')[1];
  }

  /** The messages read from a log, and whether the reader panicked. */
  datatype Scan = Scan(messages: seq<Message>, panicked: bool)

  function ScanLines(lines: seq<string>, parseTime: string -> Option<int>): Scan
  {
    if lines == [] then Scan([], false)
    else
      var prev := ScanLines(lines[..|lines| - 1], parseTime);
      if prev.panicked then prev
      else
        match ReadLine(lines[|lines| - 1], parseTime)
        case Skipped => prev
        case Panic => prev.(panicked := true)
        case Kept(m) => prev.(messages := prev.messages + [m])
  }

  /** Every message read is an uplink message taken from one line of the
      log, in the order of the lines. */
  lemma {:induction false} ScannedAreUplinks(lines: seq<string>, parseTime: string -> Option<int>)
    ensures forall m :: m in ScanLines(lines, parseTime).messages ==>
      StartsWith(m.data, UplinkPrefix) && exists i :: 0 <= i < |lines| && ReadLine(lines[i], parseTime) == Kept(m)
  {
    if lines != [] {
      var n := |lines| - 1;
      ScannedAreUplinks(lines[..n], parseTime);
      forall m | m in ScanLines(lines, parseTime).messages
        ensures StartsWith(m.data, UplinkPrefix) && exists i :: 0 <= i < |lines| && ReadLine(lines[i], parseTime) == Kept(m)
      {
        if m in ScanLines(lines[..n], parseTime).messages {
          var i :| 0 <= i < n && ReadLine(lines[..n][i], parseTime) == Kept(m);
          assert lines[..n][i] == lines[i];
        } else {
          assert ReadLine(lines[n], parseTime) == Kept(m);
        }
      }
    }
  }

  /** The reader panics exactly when some line of the log makes it panic. */
  lemma {:induction false} ScanPanicIff(lines: seq<string>, parseTime: string -> Option<int>)
    ensures ScanLines(lines, parseTime).panicked <==> exists i :: 0 <= i < |lines| && ReadLine(lines[i], parseTime) == Panic
  {
    if lines != [] {
      var n := |lines| - 1;
      ScanPanicIff(lines[..n], parseTime);
      if exists i :: 0 <= i < n && ReadLine(lines[..n][i], parseTime) == Panic {
        var i :| 0 <= i < n && ReadLine(lines[..n][i], parseTime) == Panic;
        assert lines[..n][i] == lines[i];
      }
      if exists i :: 0 <= i < |lines| && ReadLine(lines[i], parseTime) == Panic {
        var i :| 0 <= i < |lines| && ReadLine(lines[i], parseTime) == Panic;
        if i < n {
          assert lines[..n][i] == lines[i];
        }
      }
    }
  }

  /** When the reader does not panic, it keeps the message of every uplink
      line of the log. */
  lemma {:induction false} ScanKeepsEveryUplink(lines: seq<string>, parseTime: string -> Option<int>)
    requires !ScanLines(lines, parseTime).panicked
    ensures forall i :: 0 <= i < |lines| && ReadLine(lines[i], parseTime).Kept? ==>
      ReadLine(lines[i], parseTime).msg in ScanLines(lines, parseTime).messages
  {
    if lines != [] {
      var n := |lines| - 1;
      var prev := ScanLines(lines[..n], parseTime);
      assert !prev.panicked;
      ScanKeepsEveryUplink(lines[..n], parseTime);
      forall i | 0 <= i < |lines| && ReadLine(lines[i], parseTime).Kept?
        ensures ReadLine(lines[i], parseTime).msg in ScanLines(lines, parseTime).messages
      {
        if i < n {
          assert lines[..n][i] == lines[i];
          assert ReadLine(lines[i], parseTime).msg in prev.messages;
        }
      }
    }
  }

  /** The scanner loop of `main`. */
  method ReadMessages(lines: seq<string>, parseTime: string -> Option<int>) returns (messages: seq<Message>, panicked: bool)
    ensures Scan(messages, panicked) == ScanLines(lines, parseTime)
  {
    messages, panicked := [], false;
    var k := 0;
    while k < |lines| && !panicked
      invariant 0 <= k <= |lines|
      invariant Scan(messages, panicked) == ScanLines(lines[..k], parseTime)
    {
      assert lines[..k + 1][..k] == lines[..k];
      var s := lines[k];
      var x := Split(s, ',');
      k := k + 1;
      if |x| < 2 || s[0] == '#' {
        continue;
      }
      if |x[1]| < 4 {
        panicked := true;
        break;
      }
      if x[1][..4] != UplinkPrefix {
        continue;
      }
      var ts := parseTime(x[0]);
      if ts.None? {
        panicked := true;
        break;
      }
      messages := messages + [Message(ts.value, x[1])];
    }
    if k < |lines| {
      PanicIsFinal(lines, parseTime, k);
    }
    assert lines[..|lines|] == lines;
  }

  lemma {:induction false} PanicIsFinal(lines: seq<string>, parseTime: string -> Option<int>, k: nat)
    requires k <= |lines| && ScanLines(lines[..k], parseTime).panicked
    ensures ScanLines(lines, parseTime) == ScanLines(lines[..k], parseTime)
  {
    if k < |lines| {
      var n := |lines| - 1;
      assert lines[..n][..k] == lines[..k];
      PanicIsFinal(lines[..n], parseTime, k);
      assert lines[..n] == lines[..|lines| - 1];
    } else {
      assert lines[..k] == lines;
    }
  }

  // ---- matching messages to track points ----

  /** The association window: the point is strictly after the message and
      less than a second after it. */
  predicate Matches(trackTs: int, msgTs: int)
  {
    trackTs > msgTs && trackTs - msgTs < Tolerance
  }

  /** The messages a point at `ts` takes, in their order. */
  function Keep(ts: int, ms: seq<Message>): seq<Message>
  {
    if ms == [] then []
    else
      var m := ms[|ms| - 1];
      Keep(ts, ms[..|ms| - 1]) + (if Matches(ts, m.ts) then [m] else [])
  }

  /** No point of `tracks` matches `m`. */
  predicate MatchesNone(tracks: seq<Track>, m: Message)
  {
    forall j :: 0 <= j < |tracks| ==> !Matches(tracks[j].ts, m.ts)
  }

  /** The messages no point of `tracks` matches, in their order. */
  function Unmatched(tracks: seq<Track>, ms: seq<Message>): seq<Message>
  {
    if ms == [] then []
    else
      var m := ms[|ms| - 1];
      Unmatched(tracks, ms[..|ms| - 1]) + (if MatchesNone(tracks, m) then [m] else [])
  }

  /** Point `t` after `earlier` have had their pick of `ms`. */
  function WithMatches(t: Track, earlier: seq<Track>, ms: seq<Message>): Track
  {
    t.(associated := t.associated + Keep(t.ts, Unmatched(earlier, ms)))
  }

  lemma {:induction false} KeepMembers(ts: int, ms: seq<Message>, m: Message)
    ensures m in Keep(ts, ms) <==> m in ms && Matches(ts, m.ts)
  {
    if ms != [] {
      KeepMembers(ts, ms[..|ms| - 1], m);
      assert ms == ms[..|ms| - 1] + [ms[|ms| - 1]];
    }
  }

  /** The leftovers are exactly the messages no point matches. */
  lemma {:induction false} LeftoversMatchNoTrack(tracks: seq<Track>, ms: seq<Message>, m: Message)
    ensures m in Unmatched(tracks, ms) <==> m in ms && MatchesNone(tracks, m)
  {
    if ms != [] {
      LeftoversMatchNoTrack(tracks, ms[..|ms| - 1], m);
      assert ms == ms[..|ms| - 1] + [ms[|ms| - 1]];
    }
  }

  lemma MatchesNoneSingle(t: Track, m: Message)
    ensures MatchesNone([t], m) <==> !Matches(t.ts, m.ts)
  {
    assert [t][0] == t;
  }

  lemma MatchesNoneAppend(earlier: seq<Track>, t: Track, m: Message)
    ensures MatchesNone(earlier + [t], m) <==> MatchesNone(earlier, m) && !Matches(t.ts, m.ts)
  {
    var all := earlier + [t];
    assert all[|earlier|] == t;
    assert forall j :: 0 <= j < |earlier| ==> all[j] == earlier[j];
  }

  /** Dropping what one more point takes from the leftovers of `earlier`
      leaves the leftovers of `earlier` and that point. */
  lemma {:induction false} UnmatchedStep(earlier: seq<Track>, t: Track, ms: seq<Message>)
    ensures Unmatched([t], Unmatched(earlier, ms)) == Unmatched(earlier + [t], ms)
  {
    if ms != [] {
      var n := |ms| - 1;
      var m := ms[n];
      UnmatchedStep(earlier, t, ms[..n]);
      var u := Unmatched(earlier, ms[..n]);
      MatchesNoneAppend(earlier, t, m);
      MatchesNoneSingle(t, m);
      if MatchesNone(earlier, m) {
        assert Unmatched(earlier, ms) == u + [m];
        assert (u + [m])[..|u + [m]| - 1] == u;
        assert Unmatched([t], u + [m]) == Unmatched([t], u) + (if MatchesNone([t], m) then [m] else []);
      } else {
        assert Unmatched(earlier, ms) == u;
        assert Unmatched(earlier + [t], ms) == Unmatched(earlier + [t], ms[..n]);
      }
    }
  }

  /** Each message is taken by the first point, in track order, that
      matches it, and by no other. */
  lemma FirstMatchTakes(tracks: seq<Track>, ms: seq<Message>, k: nat, m: Message)
    requires k < |tracks|
    ensures m in WithMatches(tracks[k], tracks[..k], ms).associated <==>
      m in tracks[k].associated || (m in ms && Matches(tracks[k].ts, m.ts) && MatchesNone(tracks[..k], m))
  {
    KeepMembers(tracks[k].ts, Unmatched(tracks[..k], ms), m);
    LeftoversMatchNoTrack(tracks[..k], ms, m);
  }

  /** No message is taken by two points. */
  lemma TakenOnce(tracks: seq<Track>, ms: seq<Message>, k1: nat, k2: nat, m: Message)
    requires k1 < k2 < |tracks|
    requires m in Keep(tracks[k1].ts, Unmatched(tracks[..k1], ms))
    ensures m !in Keep(tracks[k2].ts, Unmatched(tracks[..k2], ms))
  {
    KeepMembers(tracks[k1].ts, Unmatched(tracks[..k1], ms), m);
    KeepMembers(tracks[k2].ts, Unmatched(tracks[..k2], ms), m);
    LeftoversMatchNoTrack(tracks[..k2], ms, m);
    assert tracks[..k2][k1] == tracks[k1];
  }

  /** A point's share keeps the messages' order: taking from a pool in two
      parts takes from each part in turn. */
  lemma {:induction false} KeepAppend(ts: int, a: seq<Message>, b: seq<Message>)
    ensures Keep(ts, a + b) == Keep(ts, a) + Keep(ts, b)
    decreases |b|
  {
    if b == [] {
      Seqs.AppendEmpty(a);
      Seqs.AppendEmpty(Keep(ts, a));
    } else {
      var n := |b| - 1;
      Seqs.AppendDropLast(a, b);
      KeepAppend(ts, a, b[..n]);
      Seqs.AppendAssoc(Keep(ts, a), Keep(ts, b[..n]), if Matches(ts, b[n].ts) then [b[n]] else []);
    }
  }

  /** The leftovers keep the messages' order in the same way. */
  lemma {:induction false} UnmatchedAppend(tracks: seq<Track>, a: seq<Message>, b: seq<Message>)
    ensures Unmatched(tracks, a + b) == Unmatched(tracks, a) + Unmatched(tracks, b)
    decreases |b|
  {
    if b == [] {
      Seqs.AppendEmpty(a);
      Seqs.AppendEmpty(Unmatched(tracks, a));
    } else {
      var n := |b| - 1;
      Seqs.AppendDropLast(a, b);
      UnmatchedAppend(tracks, a, b[..n]);
      Seqs.AppendAssoc(Unmatched(tracks, a), Unmatched(tracks, b[..n]), if MatchesNone(tracks, b[n]) then [b[n]] else []);
    }
  }

  /** Of two messages in the pool, the earlier one stays first wherever
      both end up. */
  lemma KeepOrder(ts: int, a: seq<Message>, m1: Message, b: seq<Message>, m2: Message, c: seq<Message>)
    requires Matches(ts, m1.ts) && Matches(ts, m2.ts)
    ensures exists x, y, z :: Keep(ts, a + [m1] + b + [m2] + c) == x + [m1] + y + [m2] + z
  {
    KeepAppend(ts, a + [m1] + b + [m2], c);
    KeepAppend(ts, a + [m1] + b, [m2]);
    KeepAppend(ts, a + [m1], b);
    KeepAppend(ts, a, [m1]);
    KeepSingle(ts, m1);
    KeepSingle(ts, m2);
  }

  lemma KeepSingle(ts: int, m: Message)
    ensures Keep(ts, [m]) == if Matches(ts, m.ts) then [m] else []
  {
    assert [m][..0] == [];
  }

  lemma MultisetSnoc<T>(a: seq<T>, x: T)
    ensures multiset(a + [x]) == multiset(a) + multiset{x}
  {
  }

  lemma MultisetLast<T>(s: seq<T>)
    requires s != []
    ensures multiset(s) == multiset(s[..|s| - 1]) + multiset{s[|s| - 1]}
  {
    Seqs.LastSplit(s);
  }

  lemma AddOneLeft<T>(a: multiset<T>, b: multiset<T>, c: multiset<T>, x: T)
    requires a + b == c
    ensures (a + multiset{x}) + b == c + multiset{x}
  {
  }

  lemma AddOneRight<T>(a: multiset<T>, b: multiset<T>, c: multiset<T>, x: T)
    requires a + b == c
    ensures a + (b + multiset{x}) == c + multiset{x}
  {
  }

  lemma KeepSplitsStep(t: Track, ms: seq<Message>)
    requires ms != []
    requires multiset(Keep(t.ts, ms[..|ms| - 1])) + multiset(Unmatched([t], ms[..|ms| - 1])) == multiset(ms[..|ms| - 1])
    ensures multiset(Keep(t.ts, ms)) + multiset(Unmatched([t], ms)) == multiset(ms)
  {
    var init, m := ms[..|ms| - 1], ms[|ms| - 1];
    MatchesNoneSingle(t, m);
    MultisetLast(ms);
    var k := Keep(t.ts, init);
    var u := Unmatched([t], init);
    if Matches(t.ts, m.ts) {
      MultisetSnoc(k, m);
      AddOneLeft(multiset(k), multiset(u), multiset(init), m);
    } else {
      MultisetSnoc(u, m);
      AddOneRight(multiset(k), multiset(u), multiset(init), m);
    }
  }

  /** A point's share and the messages it passes on are a split of its input. */
  lemma {:induction false} KeepSplits(t: Track, ms: seq<Message>)
    ensures multiset(Keep(t.ts, ms)) + multiset(Unmatched([t], ms)) == multiset(ms)
  {
    if ms != [] {
      KeepSplits(t, ms[..|ms| - 1]);
      KeepSplitsStep(t, ms);
    }
  }

  /** The messages all points of `tracks` take, counted with multiplicity. */
  function Taken(tracks: seq<Track>, ms: seq<Message>): multiset<Message>
  {
    if tracks == [] then multiset{}
    else
      var n := |tracks| - 1;
      Taken(tracks[..n], ms) + multiset(Keep(tracks[n].ts, Unmatched(tracks[..n], ms)))
  }

  lemma UnmatchedNone(ms: seq<Message>)
    ensures Unmatched([], ms) == ms
  {
    if ms != [] {
      UnmatchedNone(ms[..|ms| - 1]);
      assert ms == ms[..|ms| - 1] + [ms[|ms| - 1]];
    }
  }

  lemma MessagesConservedStep(tracks: seq<Track>, ms: seq<Message>)
    requires tracks != []
    requires Taken(tracks[..|tracks| - 1], ms) + multiset(Unmatched(tracks[..|tracks| - 1], ms)) == multiset(ms)
    ensures Taken(tracks, ms) + multiset(Unmatched(tracks, ms)) == multiset(ms)
  {
    var earlier, t := tracks[..|tracks| - 1], tracks[|tracks| - 1];
    Seqs.LastSplit(tracks);
    var u := Unmatched(earlier, ms);
    assert Taken(tracks, ms) == Taken(earlier, ms) + multiset(Keep(t.ts, u));
    KeepSplits(t, u);
    UnmatchedStep(earlier, t, ms);
    Regroup(Taken(earlier, ms), multiset(Keep(t.ts, u)), multiset(Unmatched([t], u)), multiset(u));
  }

  lemma Regroup<T>(a: multiset<T>, b: multiset<T>, c: multiset<T>, d: multiset<T>)
    requires b + c == d
    ensures (a + b) + c == a + d
  {
  }

  /** Nothing is lost or duplicated: the messages taken by the points plus
      the leftovers are the input messages exactly. */
  lemma {:induction false} MessagesConserved(tracks: seq<Track>, ms: seq<Message>)
    ensures Taken(tracks, ms) + multiset(Unmatched(tracks, ms)) == multiset(ms)
  {
    if tracks == [] {
      UnmatchedNone(ms);
    } else {
      MessagesConserved(tracks[..|tracks| - 1], ms);
      MessagesConservedStep(tracks, ms);
    }
  }

  /** The inner loop of the association: point `k` takes the messages of
      `pool` it matches, and the others are returned in their order. */
  method Claim(tracks: array<Track>, k: nat, pool: seq<Message>) returns (fin: seq<Message>)
    requires k < tracks.Length
    modifies tracks
    ensures fin == Unmatched([old(tracks[k])], pool)
    ensures tracks[k] == old(tracks[k]).(associated := old(tracks[k]).associated + Keep(old(tracks[k]).ts, pool))
    ensures forall j :: 0 <= j < tracks.Length && j != k ==> tracks[j] == old(tracks[j])
  {
    var v := tracks[k];
    fin := [];
    for i := 0 to |pool|
      invariant fin == Unmatched([v], pool[..i])
      invariant tracks[k] == v.(associated := v.associated + Keep(v.ts, pool[..i]))
      invariant forall j :: 0 <= j < tracks.Length && j != k ==> tracks[j] == old(tracks[j])
    {
      assert pool[..i + 1][..i] == pool[..i];
      MatchesNoneSingle(v, pool[i]);
      if v.ts > pool[i].ts && v.ts - pool[i].ts < Tolerance {
        tracks[k] := tracks[k].(associated := tracks[k].associated + [pool[i]]);
      } else {
        fin := fin + [pool[i]];
      }
    }
    assert pool[..|pool|] == pool;
  }

  /** The association loop of `main`: each point in turn takes the messages
      it matches from the pool, and the rest go back to the pool. */
  method Associate(tracks: array<Track>, messages: seq<Message>) returns (leftover: seq<Message>)
    modifies tracks
    ensures leftover == Unmatched(old(tracks[..]), messages)
    ensures forall k :: 0 <= k < tracks.Length ==> tracks[k] == WithMatches(old(tracks[k]), old(tracks[..k]), messages)
  {
    ghost var orig := tracks[..];
    leftover := messages;
    UnmatchedNone(messages);
    assert orig[..0] == [];
    for k := 0 to tracks.Length
      invariant leftover == Unmatched(orig[..k], messages)
      invariant forall j :: 0 <= j < k ==> tracks[j] == WithMatches(orig[j], orig[..j], messages)
      invariant forall j :: k <= j < tracks.Length ==> tracks[j] == orig[j]
    {
      UnmatchedStep(orig[..k], orig[k], messages);
      assert orig[..k + 1] == orig[..k] + [orig[k]];
      leftover := Claim(tracks, k, leftover);
    }
    assert orig[..tracks.Length] == orig;
  }

  // ---- plotting ----

  /** An `addDot` call: position, message count, and whether any arrived. */
  datatype Dot = Dot(lat: real, lng: real, count: nat, ok: bool)

  predicate Received(t: Track)
  {
    |t.associated| > 0
  }

  /** The number of points without messages. */
  function Failing(tracks: seq<Track>): nat
  {
    if tracks == [] then 0
    else Failing(tracks[..|tracks| - 1]) + (if Received(tracks[|tracks| - 1]) then 0 else 1)
  }

  /** The dots printed for point `v` when `failedBefore` points without
      messages came before it. */
  function NewDots(v: Track, failedBefore: nat): seq<Dot>
  {
    if Received(v) then [Dot(v.lat, v.lng, |v.associated|, true)]
    else if failedBefore % 10 == 0 then [Dot(v.lat, v.lng, 0, false)]
    else []
  }

  /** The dots the plotting loop prints: every point with messages, and
      every tenth point without, starting with the first. */
  function Dots(tracks: seq<Track>): seq<Dot>
  {
    if tracks == [] then []
    else
      var n := |tracks| - 1;
      Dots(tracks[..n]) + NewDots(tracks[n], Failing(tracks[..n]))
  }

  function CountDots(dots: seq<Dot>, ok: bool): nat
  {
    if dots == [] then 0
    else CountDots(dots[..|dots| - 1], ok) + (if dots[|dots| - 1].ok == ok then 1 else 0)
  }

  lemma CountDotsAppend(a: seq<Dot>, b: seq<Dot>, ok: bool)
    ensures CountDots(a + b, ok) == CountDots(a, ok) + CountDots(b, ok)
    decreases |b|
  {
    if b != [] {
      assert (a + b)[..|a + b| - 1] == a + b[..|b| - 1];
      CountDotsAppend(a, b[..|b| - 1], ok);
    } else {
      assert a + b == a;
    }
  }

  lemma NewDotsCounts(v: Track, f: nat)
    ensures CountDots(NewDots(v, f), false) == if !Received(v) && f % 10 == 0 then 1 else 0
    ensures CountDots(NewDots(v, f), true) == if Received(v) then 1 else 0
  {
    var d := NewDots(v, f);
    if d != [] {
      assert d[..0] == [];
    }
  }

  lemma CeilStep(f: nat, g: nat)
    requires g == f + 1
    ensures (g + 9) / 10 == (f + 9) / 10 + (if f % 10 == 0 then 1 else 0)
  {
  }

  lemma DotCountsStep(tracks: seq<Track>)
    requires tracks != []
    requires CountDots(Dots(tracks[..|tracks| - 1]), false) == (Failing(tracks[..|tracks| - 1]) + 9) / 10
    requires CountDots(Dots(tracks[..|tracks| - 1]), true) == |tracks| - 1 - Failing(tracks[..|tracks| - 1])
    ensures CountDots(Dots(tracks), false) == (Failing(tracks) + 9) / 10
    ensures CountDots(Dots(tracks), true) == |tracks| - Failing(tracks)
  {
    var init, v := tracks[..|tracks| - 1], tracks[|tracks| - 1];
    var f, g := Failing(init), Failing(tracks);
    var before, added := Dots(init), NewDots(v, f);
    assert Dots(tracks) == before + added;
    NewDotsCounts(v, f);
    CountDotsAppend(before, added, false);
    CountDotsAppend(before, added, true);
    if Received(v) {
      assert g == f;
    } else {
      assert g == f + 1;
      CeilStep(f, g);
      assert CountDots(Dots(tracks), false) == (f + 9) / 10 + CountDots(added, false);
    }
  }

  /** One dot per point with messages, and one per ten points without,
      rounded up. */
  lemma {:induction false} DotCounts(tracks: seq<Track>)
    ensures CountDots(Dots(tracks), false) == (Failing(tracks) + 9) / 10
    ensures CountDots(Dots(tracks), true) == |tracks| - Failing(tracks)
  {
    if tracks != [] {
      DotCounts(tracks[..|tracks| - 1]);
      DotCountsStep(tracks);
    }
  }

  lemma {:induction false} DotsPrefix(tracks: seq<Track>, k: nat)
    requires k <= |tracks|
    ensures Dots(tracks[..k]) <= Dots(tracks)
  {
    if k < |tracks| {
      var n := |tracks| - 1;
      assert tracks[..n][..k] == tracks[..k];
      DotsPrefix(tracks[..n], k);
    } else {
      assert tracks[..k] == tracks;
    }
  }

  lemma {:induction false} NoFailingBefore(tracks: seq<Track>)
    requires forall j :: 0 <= j < |tracks| ==> Received(tracks[j])
    ensures Failing(tracks) == 0
  {
    if tracks != [] {
      NoFailingBefore(tracks[..|tracks| - 1]);
    }
  }

  lemma DotsSnoc(tracks: seq<Track>, k: nat)
    requires k < |tracks| && !Received(tracks[k]) && Failing(tracks[..k]) % 10 == 0
    ensures Dots(tracks[..k + 1]) == Dots(tracks[..k]) + [Dot(tracks[k].lat, tracks[k].lng, 0, false)]
  {
    assert tracks[..k + 1][..k] == tracks[..k];
  }

  lemma PrefixMember<T>(a: seq<T>, b: seq<T>, x: T)
    requires a <= b && x in a
    ensures x in b
  {
    var i :| 0 <= i < |a| && a[i] == x;
    assert b[i] == x;
  }

  /** A point without messages is plotted when the number of such points
      before it is a multiple of ten. */
  lemma FailingPlottedEveryTenth(tracks: seq<Track>, k: nat)
    requires k < |tracks| && !Received(tracks[k]) && Failing(tracks[..k]) % 10 == 0
    ensures Dot(tracks[k].lat, tracks[k].lng, 0, false) in Dots(tracks)
  {
    var dot := Dot(tracks[k].lat, tracks[k].lng, 0, false);
    DotsSnoc(tracks, k);
    DotsPrefix(tracks, k + 1);
    assert dot in Dots(tracks[..k]) + [dot];
    PrefixMember(Dots(tracks[..k + 1]), Dots(tracks), dot);
  }

  /** The first point without messages is always plotted. */
  lemma FirstFailingPlotted(tracks: seq<Track>, k: nat)
    requires k < |tracks| && !Received(tracks[k])
    requires forall j :: 0 <= j < k ==> Received(tracks[j])
    ensures Dot(tracks[k].lat, tracks[k].lng, 0, false) in Dots(tracks)
  {
    NoFailingBefore(tracks[..k]);
    FailingPlottedEveryTenth(tracks, k);
  }

  /** The plotting loop of `main`; `failed` is its counter `i`. */
  method Plot(tracks: seq<Track>) returns (dots: seq<Dot>, failed: nat)
    ensures dots == Dots(tracks) && failed == Failing(tracks)
  {
    dots, failed := [], 0;
    for k := 0 to |tracks|
      invariant dots == Dots(tracks[..k]) && failed == Failing(tracks[..k])
    {
      assert tracks[..k + 1][..k] == tracks[..k];
      var v := tracks[k];
      if |v.associated| > 0 {
        dots := dots + [Dot(v.lat, v.lng, |v.associated|, true)];
      } else {
        if failed % 10 == 0 {
          dots := dots + [Dot(v.lat, v.lng, 0, false)];
        }
        failed := failed + 1;
      }
    }
    assert tracks[..|tracks|] == tracks;
  }
}
