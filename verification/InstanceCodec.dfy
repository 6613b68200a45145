/**
 The registry's text form of a service instance: six lines, and then one line key=value for each
 metadata entry, in whatever order the unordered map yields them.
 */
module InstanceCodec {
  import opened Decimal
  import opened Results
  import opened ServiceInstances

  const NEWLINE := '\n'

  /** An order in which the metadata map may be walked: every key once. */
  ghost predicate IsOrder(order: seq<string>, metadata: map<string, string>) {
    && (forall i, j | 0 <= i < j < |order| :: order[i] != order[j])
    && (forall k :: k in order <==> k in metadata)
  }

  function Flag(b: bool): string {
    if b then "1" else "0"
  }

  /** The six lines that every instance has. */
  function FieldLines(x: ServiceInstance): (ls: seq<string>)
    ensures |ls| == 6
  {
    [x.serviceName, x.host, ToString(x.port), ToString(x.weight), Flag(x.isHealthy),
     ToString(x.lastHeartbeat)]
  }

  function MetaLines(order: seq<string>, metadata: map<string, string>): (ls: seq<string>)
    requires forall k | k in order :: k in metadata
    ensures |ls| == |order|
    ensures forall i | 0 <= i < |order| :: ls[i] == order[i] + "=" + metadata[order[i]]
  {
    seq(|order|, i requires 0 <= i < |order| => order[i] + "=" + metadata[order[i]])
  }

  function Unlines(ls: seq<string>): string {
    if ls == [] then "" else Unlines(ls[..|ls| - 1]) + ls[|ls| - 1] + [NEWLINE]
  }

  /** serializeInstance, for one walk of the metadata. */
  function Serialized(x: ServiceInstance, order: seq<string>): string
    requires forall k | k in order :: k in x.metadata
  {
    Unlines(FieldLines(x)) + Unlines(MetaLines(order, x.metadata))
  }

  /** Up to the first c: what is before it and what is behind it. */
  function Cut(s: string, c: char): (r: Option<(string, string)>)
    ensures r.None? <==> c !in s
    ensures r.Some? ==> c !in r.value.0 && s == r.value.0 + [c] + r.value.1
  {
    if s == "" then None
    else if s[0] == c then Some(("", s[1..]))
    else
      match Cut(s[1..], c)
      case None => None
      case Some((before, after)) => Some(([s[0]] + before, after))
  }

  /** std::getline: the next line and what is left; it fails only at the end of the text. */
  function GetLine(s: string): (r: Option<(string, string)>)
    ensures r.Some? ==> |r.value.1| < |s| && NEWLINE !in r.value.0
  {
    if s == "" then None
    else
      match Cut(s, NEWLINE)
      case None => Some((s, ""))
      case Some(parts) => Some(parts)
  }

  function Lines(s: string): (ls: seq<string>)
    ensures forall l | l in ls :: NEWLINE !in l
    decreases |s|
  {
    match GetLine(s)
    case None => []
    case Some((line, rest)) => [line] + Lines(rest)
  }

  function DefaultInstance(): ServiceInstance {
    ServiceInstance("", "", 0, 1, false, 0, map[])
  }

  /** The metadata after k of the lines; a line without '=' is skipped, a later key overwrites. */
  function MetaTo(ls: seq<string>, k: nat): map<string, string>
    requires k <= |ls|
  {
    if k == 0 then map[]
    else
      match Cut(ls[k - 1], '=')
      case None => MetaTo(ls, k - 1)
      case Some((key, value)) => MetaTo(ls, k - 1)[key := value]
  }

  function AllMeta(ls: seq<string>): map<string, string> {
    MetaTo(ls, |ls|)
  }

  /** The lines from number k on, none if there are fewer. */
  function From(ls: seq<string>, k: nat): (r: seq<string>)
    ensures r == [] <==> |ls| <= k
    ensures |ls| > k ==> r == ls[k..] && r[0] == ls[k]
  {
    if |ls| <= k then [] else ls[k..]
  }

  /** What the lines stand for: missing lines leave the defaults, bad numbers throw. */
  function Parsed(ls: seq<string>): Result<ServiceInstance> {
    var x := DefaultInstance();
    var x := if |ls| > 0 then x.(serviceName := ls[0]) else x;
    var x := if |ls| > 1 then x.(host := ls[1]) else x;
    var port := if |ls| > 2 then Stoi(ls[2]) else Ok(x.port);
    if port.Err? then Err(port.error)
    else
      var x := x.(port := port.value % 0x1_0000);
      var weight := if |ls| > 3 then Stoi(ls[3]) else Ok(x.weight);
      if weight.Err? then Err(weight.error)
      else
        var x := x.(weight := weight.value);
        var x := if |ls| > 4 then x.(isHealthy := ls[4] == "1") else x;
        var heartbeat := if |ls| > 5 then Stoull(ls[5]) else Ok(x.lastHeartbeat);
        if heartbeat.Err? then Err(heartbeat.error)
        else
          var x := x.(lastHeartbeat := heartbeat.value);
          Ok(x.(metadata := AllMeta(From(ls, 6))))
  }

  /** deserializeInstance. */
  function Deserialized(s: string): Result<ServiceInstance> {
    Parsed(Lines(s))
  }

  method SerializeInstance(x: ServiceInstance, order: seq<string>) returns (data: string)
    requires forall k | k in order :: k in x.metadata
    ensures data == Serialized(x, order)
  {
    data := "";
    data := data + x.serviceName + "\n";
    data := data + x.host + "\n";
    data := data + ToString(x.port) + "\n";
    data := data + ToString(x.weight) + "\n";
    data := data + (if x.isHealthy then "1" else "0") + "\n";
    data := data + ToString(x.lastHeartbeat) + "\n";
    UnlinesOfSix(FieldLines(x));
    var meta := SerializeMetadata(x.metadata, order);
    data := data + meta;
  }

  /** The loop over the metadata. */
  method SerializeMetadata(metadata: map<string, string>, order: seq<string>) returns (data: string)
    requires forall k | k in order :: k in metadata
    ensures data == Unlines(MetaLines(order, metadata))
  {
    data := "";
    ghost var ls := MetaLines(order, metadata);
    for k := 0 to |order|
      invariant data == Unlines(ls[..k])
    {
      assert ls[..k + 1][..k] == ls[..k];
      data := data + order[k] + "=" + metadata[order[k]] + "\n";
    }
    assert ls[..|ls|] == ls;
  }

  lemma UnlinesOfSix(f: seq<string>)
    requires |f| == 6
    ensures Unlines(f) == "" + f[0] + "\n" + f[1] + "\n" + f[2] + "\n" + f[3] + "\n" + f[4] + "\n"
      + f[5] + "\n"
  {
    assert f[..5][..4] == f[..4] && f[..4][..3] == f[..3];
    assert f[..3][..2] == f[..2] && f[..2][..1] == f[..1] && f[..1][..0] == [];
    assert Unlines(f[..1]) == "" + f[0] + "\n";
    assert Unlines(f[..2]) == Unlines(f[..1]) + f[1] + "\n";
    assert Unlines(f[..3]) == Unlines(f[..2]) + f[2] + "\n";
    assert Unlines(f[..4]) == Unlines(f[..3]) + f[3] + "\n";
    assert Unlines(f[..5]) == Unlines(f[..4]) + f[4] + "\n";
  }

  /** One call of std::getline on the text that is left. */
  method NextLine(text: string) returns (line: Option<string>, rest: string)
    ensures line == if Lines(text) == [] then None else Some(Lines(text)[0])
    ensures Lines(rest) == From(Lines(text), 1)
  {
    match GetLine(text)
    case None =>
      line, rest := None, text;
    case Some(parts) =>
      line, rest := Some(parts.0), parts.1;
  }

  method DeserializeInstance(data: string) returns (r: Result<ServiceInstance>)
    ensures r == Deserialized(data)
  {
    hide Stoi, Stoull, Lines, AllMeta, From;
    ghost var ls := Lines(data);
    FromZero(ls);
    var x := DefaultInstance();
    var line, rest := NextLine(data);
    if line.Some? {
      x := x.(serviceName := line.value);
    }
    FromNext(ls, 0);
    line, rest := NextLine(rest);
    if line.Some? {
      x := x.(host := line.value);
    }
    FromNext(ls, 1);
    line, rest := NextLine(rest);
    if line.Some? {
      var port := Stoi(line.value);
      if port.Err? {
        return Err(port.error);
      }
      x := x.(port := port.value % 0x1_0000);
    }
    FromNext(ls, 2);
    line, rest := NextLine(rest);
    if line.Some? {
      var weight := Stoi(line.value);
      if weight.Err? {
        return Err(weight.error);
      }
      x := x.(weight := weight.value);
    }
    FromNext(ls, 3);
    line, rest := NextLine(rest);
    if line.Some? {
      x := x.(isHealthy := line.value == "1");
    }
    FromNext(ls, 4);
    line, rest := NextLine(rest);
    if line.Some? {
      var heartbeat := Stoull(line.value);
      if heartbeat.Err? {
        return Err(heartbeat.error);
      }
      x := x.(lastHeartbeat := heartbeat.value);
    }
    FromNext(ls, 5);
    x := ReadMetadata(x, rest);
    return Ok(x);
  }

  lemma FromZero(ls: seq<string>)
    ensures From(ls, 0) == ls
  {
  }

  lemma FromNext(ls: seq<string>, k: nat)
    ensures From(From(ls, k), 1) == From(ls, k + 1)
  {
  }

  /** The loop over the metadata lines. */
  method ReadMetadata(x: ServiceInstance, text: string) returns (x': ServiceInstance)
    requires x.metadata == map[]
    ensures x' == x.(metadata := AllMeta(Lines(text)))
  {
    hide Lines;
    ghost var ls := Lines(text);
    ghost var k := 0;
    x' := x;
    var line, rest := NextLine(text);
    while line.Some?
      invariant 0 <= k <= |ls| && x' == x.(metadata := MetaTo(ls, k))
      invariant line == if k < |ls| then Some(ls[k]) else None
      invariant Lines(rest) == From(ls, k + 1)
      decreases |ls| - k
    {
      var parts := Cut(line.value, '=');
      if parts.Some? {
        x' := x'.(metadata := x'.metadata[parts.value.0 := parts.value.1]);
      }
      k := k + 1;
      FromNext(ls, k);
      line, rest := NextLine(rest);
    }
  }

  // ---------------------------------------------------------------- round trip

  /** Text that the line format can carry. */
  ghost predicate Clean(x: ServiceInstance) {
    && NEWLINE !in x.serviceName && NEWLINE !in x.host
    && forall k | k in x.metadata :: NEWLINE !in k && '=' !in k && NEWLINE !in x.metadata[k]
  }

  lemma {:induction false} CutAtFirst(a: string, c: char, b: string)
    requires c !in a
    ensures Cut(a + [c] + b, c) == Some((a, b))
  {
    if a != "" {
      assert (a + [c] + b)[1..] == a[1..] + [c] + b;
      CutAtFirst(a[1..], c, b);
      assert [a[0]] + a[1..] == a;
    } else {
      assert ([] + [c] + b)[1..] == b;
    }
  }

  lemma UnlinesLast(front: seq<string>, last: string)
    ensures Unlines(front + [last]) == Unlines(front) + (last + [NEWLINE])
  {
    assert (front + [last])[..|front|] == front;
  }

  lemma {:induction false} UnlinesFirst(ls: seq<string>)
    requires ls != []
    ensures Unlines(ls) == ls[0] + [NEWLINE] + Unlines(ls[1..])
  {
    hide Unlines;
    var front, last := ls[..|ls| - 1], ls[|ls| - 1];
    assert ls == front + [last];
    UnlinesLast(front, last);
    if |ls| > 1 {
      UnlinesFirst(front);
      assert ls[1..] == front[1..] + [last];
      UnlinesLast(front[1..], last);
    } else {
      UnlinesNone();
      assert ls[1..] == [];
    }
  }

  lemma UnlinesNone()
    ensures Unlines([]) == ""
  {
  }

  lemma {:induction false} UnlinesAppend(a: seq<string>, b: seq<string>)
    ensures Unlines(a + b) == Unlines(a) + Unlines(b)
  {
    if b == [] {
      assert a + b == a;
    } else {
      var b' := b[..|b| - 1];
      assert (a + b)[..|a + b| - 1] == a + b';
      UnlinesAppend(a, b');
    }
  }

  /** Lines without newlines, joined and split again, are the same lines, empty ones included. */
  lemma {:induction false} LinesOfUnlines(ls: seq<string>)
    requires forall l | l in ls :: NEWLINE !in l
    ensures Lines(Unlines(ls)) == ls
  {
    if ls != [] {
      UnlinesFirst(ls);
      CutAtFirst(ls[0], NEWLINE, Unlines(ls[1..]));
      LinesOfUnlines(ls[1..]);
    }
  }

  /** The last line counts without its newline too. */
  lemma {:induction false} LastLineWithoutNewline(ls: seq<string>, last: string)
    requires forall l | l in ls :: NEWLINE !in l
    requires last != "" && NEWLINE !in last
    ensures Lines(Unlines(ls) + last) == ls + [last]
  {
    hide Unlines, Cut;
    if ls == [] {
      UnlinesNone();
      assert Unlines(ls) + last == last;
      NoLinesLeft();
    } else {
      UnlinesFirst(ls);
      var rest := Unlines(ls[1..]) + last;
      assert Unlines(ls) + last == ls[0] + [NEWLINE] + rest;
      CutAtFirst(ls[0], NEWLINE, rest);
      LastLineWithoutNewline(ls[1..], last);
    }
  }

  lemma NoLinesLeft()
    ensures Lines("") == []
  {
  }

  /** The entries of the first k keys of a walk. */
  function Walked(order: seq<string>, metadata: map<string, string>, k: nat): map<string, string>
    requires k <= |order| && forall key | key in order :: key in metadata
  {
    if k == 0 then map[]
    else Walked(order, metadata, k - 1)[order[k - 1] := metadata[order[k - 1]]]
  }

  lemma {:induction false} MetaReadsBack(order: seq<string>, metadata: map<string, string>, k: nat)
    requires k <= |order| && forall key | key in order :: key in metadata && '=' !in key
    ensures MetaTo(MetaLines(order, metadata), k) == Walked(order, metadata, k)
  {
    if k > 0 {
      hide Cut, MetaTo, MetaLines, Walked;
      MetaReadsBack(order, metadata, k - 1);
      LineCut(order, metadata, k - 1);
      MetaNext(MetaLines(order, metadata), k - 1, order[k - 1], metadata[order[k - 1]]);
      WalkedNext(order, metadata, k - 1);
    }
  }

  lemma LineCut(order: seq<string>, metadata: map<string, string>, k: nat)
    requires k < |order| && forall key | key in order :: key in metadata && '=' !in key
    ensures Cut(MetaLines(order, metadata)[k], '=') == Some((order[k], metadata[order[k]]))
  {
    hide Cut;
    assert order[k] in order;
    CutAtFirst(order[k], '=', metadata[order[k]]);
  }

  lemma MetaNext(ls: seq<string>, k: nat, key: string, value: string)
    requires k < |ls| && Cut(ls[k], '=') == Some((key, value))
    ensures MetaTo(ls, k + 1) == MetaTo(ls, k)[key := value]
  {
    hide Cut;
  }

  lemma WalkedNext(order: seq<string>, metadata: map<string, string>, k: nat)
    requires k < |order| && forall key | key in order :: key in metadata
    ensures Walked(order, metadata, k + 1)
      == Walked(order, metadata, k)[order[k] := metadata[order[k]]]
  {
  }

  lemma {:induction false} WalkedHolds(order: seq<string>, metadata: map<string, string>, k: nat)
    requires k <= |order| && forall key | key in order :: key in metadata
    ensures forall key :: key in Walked(order, metadata, k) <==> key in order[..k]
    ensures forall key | key in Walked(order, metadata, k) ::
        Walked(order, metadata, k)[key] == metadata[key]
  {
    if k > 0 {
      WalkedHolds(order, metadata, k - 1);
      assert order[..k] == order[..k - 1] + [order[k - 1]];
    }
  }

  lemma WholeWalk(order: seq<string>, metadata: map<string, string>)
    requires IsOrder(order, metadata)
    ensures Walked(order, metadata, |order|) == metadata
  {
    WalkedHolds(order, metadata, |order|);
    assert order[..|order|] == order;
  }

  lemma ParsedFields(ls: seq<string>, x: ServiceInstance)
    requires |ls| >= 6
    requires ls[0] == x.serviceName && ls[1] == x.host && ls[4] == Flag(x.isHealthy)
    requires Stoi(ls[2]) == Ok(x.port) && Stoi(ls[3]) == Ok(x.weight)
    requires Stoull(ls[5]) == Ok(x.lastHeartbeat)
    requires AllMeta(From(ls, 6)) == x.metadata
    ensures Parsed(ls) == Ok(x)
  {
    hide Stoi, Stoull, AllMeta, From;
    assert "0" != "1";
  }

  /** No newline and no '=' in a key: whatever the walk of the metadata, the instance comes back. */
  lemma CleanComesBack(x: ServiceInstance, order: seq<string>)
    requires IsOrder(order, x.metadata) && Clean(x)
    ensures Deserialized(Serialized(x, order)) == Ok(x)
  {
    hide Stoi, Stoull, ToString, Unlines, Lines, MetaTo, Parsed, MetaLines;
    var fields, meta := FieldLines(x), MetaLines(order, x.metadata);
    UnlinesAppend(fields, meta);
    var ls := fields + meta;
    AllLinesClean(x, order);
    LinesOfUnlines(ls);
    assert ls[6..] == meta;
    StoiToString(x.port);
    StoiToString(x.weight);
    StoullToString(x.lastHeartbeat);
    MetaReadsBack(order, x.metadata, |order|);
    WholeWalk(order, x.metadata);
    ParsedFields(ls, x);
  }

  lemma AllLinesClean(x: ServiceInstance, order: seq<string>)
    requires IsOrder(order, x.metadata) && Clean(x)
    ensures forall l | l in FieldLines(x) + MetaLines(order, x.metadata) :: NEWLINE !in l
  {
    ToStringAlphabet(x.port);
    ToStringAlphabet(x.weight);
    ToStringAlphabet(x.lastHeartbeat);
    var meta := MetaLines(order, x.metadata);
    forall i | 0 <= i < |meta| ensures NEWLINE !in meta[i] {
      assert order[i] in x.metadata;
    }
  }

  lemma {:induction false} MetaIsClean(ls: seq<string>, k: nat)
    requires k <= |ls| && forall l | l in ls :: NEWLINE !in l
    ensures var m := MetaTo(ls, k);
      forall key | key in m :: NEWLINE !in key && '=' !in key && NEWLINE !in m[key]
  {
    if k > 0 {
      MetaIsClean(ls, k - 1);
      assert ls[k - 1] in ls;
    }
  }

  /** Whatever text is read, the instance that comes out is clean. */
  lemma ReadIsClean(s: string)
    ensures Deserialized(s).Ok? ==> Clean(Deserialized(s).value)
  {
    hide Stoi, Stoull, Lines, MetaTo, From;
    var ls := Lines(s);
    FromIsPart(ls, 6);
    MetaIsClean(From(ls, 6), |From(ls, 6)|);
    assert |ls| > 0 ==> ls[0] in ls;
    assert |ls| > 1 ==> ls[1] in ls;
  }

  lemma FromIsPart(ls: seq<string>, k: nat)
    ensures forall l | l in From(ls, k) :: l in ls
  {
  }

  /** One instance and its text. */
  lemma TextOfOne()
    ensures Serialized(ServiceInstance("svc", "h", 80, 1, true, 5, map["k" := "v"]), ["k"])
      == "svc\nh\n80\n1\n1\n5\nk=v\n"
  {
    hide Unlines, ToString;
    var x := ServiceInstance("svc", "h", 80, 1, true, 5, map["k" := "v"]);
    UnlinesOfSix(FieldLines(x));
    SmallNumbers();
    var meta := MetaLines(["k"], x.metadata);
    assert meta[0] == "k=v";
    UnlinesNone();
    UnlinesLast([], "k=v");
    assert meta == [] + ["k=v"];
  }

  lemma SmallNumbers()
    ensures ToString(80) == "80" && ToString(1) == "1" && ToString(5) == "5"
  {
    assert Digits(8) == "8";
  }

  /**
   What an accepted text is read as, line by line: a line that is missing leaves the default, a port
   is cut to 16 bits, only "1" is healthy, and the rest is metadata.
   */
  lemma ReadAs(s: string)
    requires Deserialized(s).Ok?
    ensures var x, ls := Deserialized(s).value, Lines(s);
      && x.serviceName == (if |ls| > 0 then ls[0] else "")
      && x.host == (if |ls| > 1 then ls[1] else "")
      && x.port == (if |ls| > 2 then Stoi(ls[2]).value % 0x1_0000 else 0)
      && x.weight == (if |ls| > 3 then Stoi(ls[3]).value else 1)
      && (x.isHealthy <==> |ls| > 4 && ls[4] == "1")
      && x.lastHeartbeat == (if |ls| > 5 then Stoull(ls[5]).value else 0)
      && (forall key, value :: Holds(x.metadata, key, value) <==> Entered(From(ls, 6), key, value))
  {
    hide Stoi, Stoull, Lines, MetaTo, From, Holds, EnteredBy;
    var rest := From(Lines(s), 6);
    forall key, value ensures Holds(AllMeta(rest), key, value) <==> Entered(rest, key, value) {
      LastLineCounts(rest, |rest|, key, value);
    }
  }

  /** The line is key=value, split at its first '='. */
  predicate IsEntry(line: string, key: string, value: string) {
    '=' !in key && line == key + "=" + value
  }

  ghost predicate IsEntryOf(line: string, key: string) {
    exists value :: IsEntry(line, key, value)
  }

  /** Of the first n lines, number k is an entry with this key and value, and the last with this key. */
  ghost predicate LastLine(ls: seq<string>, n: nat, k: nat, key: string, value: string) {
    && k < n <= |ls| && IsEntry(ls[k], key, value)
    && forall j | k < j < n :: !IsEntryOf(ls[j], key)
  }

  ghost predicate EnteredBy(ls: seq<string>, n: nat, key: string, value: string) {
    exists k: nat :: LastLine(ls, n, k, key, value)
  }

  ghost predicate Entered(ls: seq<string>, key: string, value: string) {
    EnteredBy(ls, |ls|, key, value)
  }

  predicate Holds(m: map<string, string>, key: string, value: string) {
    key in m && m[key] == value
  }

  lemma EntryIsCut(line: string, key: string, value: string)
    ensures IsEntry(line, key, value) <==> Cut(line, '=') == Some((key, value))
  {
    hide Cut;
    if IsEntry(line, key, value) {
      CutAtFirst(key, '=', value);
    }
  }

  lemma EntryOfIsCut(line: string, key: string)
    ensures IsEntryOf(line, key) <==> Cut(line, '=').Some? && Cut(line, '=').value.0 == key
  {
    hide Cut;
    if Cut(line, '=').Some? && Cut(line, '=').value.0 == key {
      EntryIsCut(line, key, Cut(line, '=').value.1);
    }
    if value :| IsEntry(line, key, value) {
      EntryIsCut(line, key, value);
    }
  }

  /** A later entry overwrites an earlier one, and only entries count. */
  lemma {:induction false} LastLineCounts(ls: seq<string>, n: nat, key: string, value: string)
    requires n <= |ls|
    ensures Holds(MetaTo(ls, n), key, value) <==> EnteredBy(ls, n, key, value)
  {
    if n > 0 {
      hide Cut, IsEntry, IsEntryOf;
      LastLineCounts(ls, n - 1, key, value);
      EntryIsCut(ls[n - 1], key, value);
      EntryOfIsCut(ls[n - 1], key);
      if IsEntryOf(ls[n - 1], key) {
        if IsEntry(ls[n - 1], key, value) {
          assert LastLine(ls, n, n - 1, key, value);
        }
      } else {
        EntryHasKey(ls[n - 1], key, value);
        LastLineSame(ls, n - 1, key, value);
      }
    }
  }

  lemma EntryHasKey(line: string, key: string, value: string)
    ensures IsEntry(line, key, value) ==> IsEntryOf(line, key)
  {
  }

  lemma LastLineSame(ls: seq<string>, n: nat, key: string, value: string)
    requires n < |ls| && !IsEntryOf(ls[n], key)
    ensures EnteredBy(ls, n, key, value) <==> EnteredBy(ls, n + 1, key, value)
  {
    hide IsEntry, IsEntryOf;
    EntryHasKey(ls[n], key, value);
    if EnteredBy(ls, n, key, value) {
      var k: nat :| LastLine(ls, n, k, key, value);
      assert LastLine(ls, n + 1, k, key, value);
    }
    if EnteredBy(ls, n + 1, key, value) {
      var k: nat :| LastLine(ls, n + 1, k, key, value);
      assert LastLine(ls, n, k, key, value);
    }
  }

  /**
   A text is refused exactly when a number line is there that begins with no numeral in range: of an
   int for port and weight, of 64 bits for the heartbeat.
   */
  lemma RefusedIff(s: string)
    ensures var ls := Lines(s);
      Deserialized(s).Err? <==>
        || (|ls| > 2 && !InRange(ls[2], INT_MIN, INT_MAX))
        || (|ls| > 3 && !InRange(ls[3], INT_MIN, INT_MAX))
        || (|ls| > 5 && !InRange(ls[5], 1 - TWO_64, TWO_64 - 1))
  {
    hide Stoi, Stoull, Lines, AllMeta, From, InRange;
    var ls := Lines(s);
    if |ls| > 2 {
      StoiAcceptsIff(ls[2]);
    }
    if |ls| > 3 {
      StoiAcceptsIff(ls[3]);
    }
    if |ls| > 5 {
      StoullAcceptsIff(ls[5]);
    }
  }

  /** The codec round trip holds exactly for clean instances, for every walk of the metadata. */
  lemma RoundTripIffClean(x: ServiceInstance, order: seq<string>)
    requires IsOrder(order, x.metadata)
    ensures Deserialized(Serialized(x, order)) == Ok(x) <==> Clean(x)
  {
    hide Deserialized, Serialized, Clean;
    ReadIsClean(Serialized(x, order));
    if Clean(x) {
      CleanComesBack(x, order);
    }
  }
}
