/** Splitting a URL into its components and reading the port. */
module UrlParser {

  import opened HttpBytes
  import opened UrlSyntax
  import opened UrlGrammar

  ghost predicate FoundAt(isConnect: bool, buf: seq<byte>, n: nat)
    requires n <= |buf|
  {
    exists k :: 0 <= k <= n && UrlAfter(UrlStart(isConnect), buf, k) == ServerWithAt
  }

  function Digits(buf: seq<byte>, from: nat, n: nat): int
    requires from <= n <= |buf|
    decreases n
  {
    if n == from then 0 else 10 * Digits(buf, from, n - 1) + buf[n - 1] as int - 48
  }

  function DigitsEnd(buf: seq<byte>, from: nat): (n: nat)
    requires from <= |buf|
    ensures from <= n <= |buf|
    decreases |buf| - from
  {
    if from < |buf| && IsNum(buf[from]) then DigitsEnd(buf, from + 1) else from
  }

  /** The number in the port component, 0 without one. */
  function PortNumber(buf: seq<byte>, isConnect: bool): int {
    var r := Where(buf, isConnect, PORT);
    if r.off + r.len <= |buf| then Digits(buf, r.off, r.off + r.len) else 0
  }

  predicate OnlyHostAndPort(buf: seq<byte>, isConnect: bool) {
    forall f :: Where(buf, isConnect, f).len > 0 <==> f == HOST || f == PORT
  }

  /** strtoul, base 10, on a string that starts with its digits and is followed by NUL. */
  method Strtoul(buf: seq<byte>, from: nat) returns (v: int)
    requires from <= |buf|
    ensures v == Digits(buf, from, DigitsEnd(buf, from))
  {
    v := 0;
    var p := from;
    while p < |buf| && IsNum(buf[p])
      invariant from <= p <= |buf| && DigitsEnd(buf, p) == DigitsEnd(buf, from)
      invariant v == Digits(buf, from, p)
    {
      v := 10 * v + (buf[p] as int - 48);
      p := p + 1;
    }
  }

  ghost predicate HasPart(labels: Labels, f: Field) {
    exists k :: 0 <= k < |labels| && labels[k] == Part(f)
  }

  /** What the host machine has recorded after reading up to `n`. */
  ghost predicate HostRecord(ranges: map<Field, Range>, buf: seq<byte>, foundAt: bool, from: nat, n: nat)
    requires from <= n <= |buf|
  {
    && HOST in ranges
    && (forall f :: ServerPart(f) ==> Exact(HostLabels(HostBegin(foundAt), buf, from, n), from, ranges, f)
                                      && Inside(from, n - from, ranges, f))
    && (4 <= HostRank(HostAfter(HostBegin(foundAt), buf, from, n)) <= 7 ==> ranges[HOST].len > 0)
    && (PORT in ranges <==> HostAfter(HostBegin(foundAt), buf, from, n) == Port)
    && (PORT in ranges ==> ranges[PORT].len > 0 && ranges[PORT].off + ranges[PORT].len == n)
    && (USERINFO in ranges ==> ranges[USERINFO].len > 0)
    && (HostAfter(HostBegin(foundAt), buf, from, n) == Userinfo ==> USERINFO in ranges)
  }

  /** The record with one more byte in it: the byte belongs to the component the machine's new state stands for, and
      starts it if the old state stands for another one. */
  ghost predicate ByteRecord(before: map<Field, Range>, after: map<Field, Range>, p: nat, s: HostState, newS: HostState) {
    match HostLabel(newS)
    case Delimiter => after == before
    case Part(f) =>
      && (HostLabel(s) == Part(f) ==> f in before)
      && after == Extend(before, f, p, HostLabel(s) != Part(f))
  }

  lemma ByteRecorded(before: map<Field, Range>, after: map<Field, Range>, buf: seq<byte>, foundAt: bool, from: nat, p: nat,
                     s: HostState, newS: HostState)
    requires from <= p < |buf| && HostRecord(before, buf, foundAt, from, p) && ByteRecord(before, after, p, s, newS)
    requires s == HostAfter(HostBegin(foundAt), buf, from, p) && newS == HostChar(s, buf[p]) && newS != HostDead
    requires newS == HostAfter(HostBegin(foundAt), buf, from, p + 1)
    ensures HostRecord(after, buf, foundAt, from, p + 1)
  {
    hide HostAfter;
    hide HostLabels;
    hide Grouped;
    hide Exact;
    hide Inside;
    var labels := HostLabels(HostBegin(foundAt), buf, from, p);
    HostLabelsSnoc(HostBegin(foundAt), buf, from, p);
    HostGrouped(HostBegin(foundAt), buf, from, p + 1);
    LastHostLabel(foundAt, buf, from, p);
    forall g | ServerPart(g)
      ensures Exact(labels + [HostLabel(newS)], from, after, g) && Inside(from, p + 1 - from, after, g)
    {
      hide HostChar;
      if HostLabel(newS).Part? {
        ExtendExact(labels, from, before, HostLabel(newS).field, HostLabel(s) != HostLabel(newS), g);
      } else {
        DelimiterExact(labels, from, before, g);
      }
    }
  }

  class UrlFields {
    var ranges: map<Field, Range>
    var port: int

    constructor ()
      ensures ranges == map[]
    {
      ranges, port := map[], 0;
    }

    /** The first pass over the whole URL. */
    method Components(buf: seq<byte>, isConnect: bool) returns (ok: bool, foundAt: bool)
      modifies this
      ensures ok <==> UrlAfter(UrlStart(isConnect), buf, |buf|) != Dead
      ensures ok ==> foundAt == FoundAt(isConnect, buf, |buf|)
      ensures ok ==> forall f :: FirstPass(f) ==>
                Exact(UrlLabels(UrlStart(isConnect), buf, |buf|), 0, ranges, f) && Inside(0, |buf|, ranges, f)
      ensures ok ==> forall f :: f in ranges ==> FirstPass(f) && ranges[f].len > 0
      ensures port == 0
    {
      hide UrlAfter;
      hide UrlChar;
      hide Exact;
      hide Inside;
      hide Newest;
      hide Grouped;
      hide FoundAt;
      ranges, port := map[], 0;
      var start := UrlStart(isConnect);
      var s := start;
      var last := Delimiter;
      foundAt := false;
      NoLabels(ranges);
      StartOfUrl(isConnect, buf);
      assert UrlLabels(start, buf, 0) == [];
      assert Newest([]) == Delimiter by {
        NothingNewest();
      }
      for i := 0 to |buf|
        invariant s == UrlAfter(start, buf, i) && s != Dead
        invariant foundAt == FoundAt(isConnect, buf, i)
        invariant last == Newest(UrlLabels(start, buf, i))
        invariant port == 0
        invariant last.Part? ==> last.field in ranges
        invariant forall f :: FirstPass(f) ==>
                    Exact(UrlLabels(start, buf, i), 0, ranges, f) && Inside(0, i, ranges, f)
        invariant forall f :: f in ranges ==> FirstPass(f) && ranges[f].len > 0
      {
        ghost var labels := UrlLabels(start, buf, i);
        NextUrl(isConnect, buf, i);
        UrlLabelsSnoc(start, buf, i);
        UrlGrouped(start, buf, i + 1);
        s := UrlChar(s, buf[i]);
        if s == Dead {
          UrlDead(start, buf, i + 1, |buf|);
          return false, foundAt;
        }
        if s == ServerWithAt {
          foundAt := true;
        }
        NewestSnoc(labels, UrlLabel(s));
        if UrlLabel(s).Part? {
          var f := UrlLabel(s).field;
          PartRecorded(labels, ranges, f, last);
          if last == Part(f) {
            ranges := ranges[f := ranges[f].(len := ranges[f].len + 1)];
          } else {
            ranges := ranges[f := Range(i, 1)];
            last := Part(f);
          }
        } else {
          DelimiterRecorded(labels, ranges);
        }
      }
      ok := true;
    }

    /** The second pass: splits the server into userinfo, host and port. */
    method ParseHost(buf: seq<byte>, foundAt: bool) returns (ret: int)
      requires HOST in ranges && USERINFO !in ranges && PORT !in ranges
      requires ranges[HOST].off + ranges[HOST].len <= |buf|
      modifies this`ranges
      ensures ret == 0 || ret == 1
      ensures var (from, to) := old((ranges[HOST].off, ranges[HOST].off + ranges[HOST].len));
        && (ret == 0 <==> HostEnd(HostAfter(HostBegin(foundAt), buf, from, to)))
        && (ret == 0 ==> HostRecord(ranges, buf, foundAt, from, to))
      ensures forall f :: !ServerPart(f) ==> (f in ranges <==> f in old(ranges))
      ensures forall f :: !ServerPart(f) && f in ranges ==> ranges[f] == old(ranges)[f]
    {
      hide HostAfter;
      hide HostChar;
      hide HostRecord;
      var from, to := ranges[HOST].off, ranges[HOST].off + ranges[HOST].len;
      ranges := ranges[HOST := ranges[HOST].(len := 0)];
      var s := HostBegin(foundAt);
      HostRecordStart(buf, foundAt, from);
      for p := from to to
        invariant s == HostAfter(HostBegin(foundAt), buf, from, p) && s != HostDead
        invariant HostRecord(ranges, buf, foundAt, from, p)
        invariant forall f :: !ServerPart(f) ==> (f in ranges <==> f in old(ranges))
        invariant forall f :: !ServerPart(f) && f in ranges ==> ranges[f] == old(ranges)[f]
      {
        HostStep(foundAt, buf, from, p);
        var newS := HostChar(s, buf[p]);
        if newS == HostDead {
          HostIsDead(HostBegin(foundAt), buf, from, p + 1, to);
          return 1;
        }
        RecordByte(buf, foundAt, from, p, s, newS);
        s := newS;
      }
      if HostEnd(s) {
        return 0;
      } else {
        return 1;
      }
    }

    /** The first machine accepts, and some byte belongs to a server part. */
    ghost predicate HasServer(buf: seq<byte>, isConnect: bool) {
      && UrlAfter(UrlStart(isConnect), buf, |buf|) != Dead
      && HasPart(UrlLabels(UrlStart(isConnect), buf, |buf|), HOST)
    }

    /** `server` is where the server part of the URL lies: the buffer alone decides it. */
    ghost predicate ServerAt(buf: seq<byte>, isConnect: bool, server: Range) {
      && server.off + server.len <= |buf|
      && Exact(UrlLabels(UrlStart(isConnect), buf, |buf|), 0, map[HOST := server], HOST)
    }

    /** The URL is one both machines accept; `server` is where its server part lies, if it has one. */
    ghost predicate Splits(buf: seq<byte>, isConnect: bool, server: Range) {
      var labels := UrlLabels(UrlStart(isConnect), buf, |buf|);
      var begin := HostBegin(FoundAt(isConnect, buf, |buf|));
      && UrlAfter(UrlStart(isConnect), buf, |buf|) != Dead
      && (HasPart(labels, SCHEMA) ==> HasPart(labels, HOST))
      && (HasPart(labels, HOST) ==>
            && ServerAt(buf, isConnect, server)
            && HostEnd(HostAfter(begin, buf, server.off, server.off + server.len)))
    }

    /** Every component's range is exactly the set of its bytes. */
    ghost predicate Recorded(buf: seq<byte>, isConnect: bool, server: Range)
      reads this`ranges
    {
      var labels := UrlLabels(UrlStart(isConnect), buf, |buf|);
      && (forall f :: !ServerPart(f) ==> Exact(labels, 0, ranges, f) && Inside(0, |buf|, ranges, f))
      && (forall f :: f in ranges ==> ranges[f].len > 0)
      && (if HasPart(labels, HOST)
          then server.off + server.len <= |buf|
               && HostRecord(ranges, buf, FoundAt(isConnect, buf, |buf|), server.off, server.off + server.len)
          else USERINFO !in ranges && HOST !in ranges && PORT !in ranges)
    }

    /** The components lie inside the buffer, apart from each other, in the order schema, userinfo, host, port, path,
      * query, fragment. */
    lemma ComponentsInOrder(buf: seq<byte>, isConnect: bool, server: Range, f: Field, g: Field)
      requires Splits(buf, isConnect, server) && Recorded(buf, isConnect, server)
      requires f in ranges && g in ranges && Place(f) < Place(g)
      ensures ranges[f].off + ranges[f].len <= ranges[g].off
      ensures ranges[g].off + ranges[g].len <= |buf|
    {
      hide UrlLabels;
      hide HostLabels;
      hide HostAfter;
      hide UrlAfter;
      hide Exact;
      hide HasPart;
      if ServerPart(f) && ServerPart(g) {
        var begin := HostBegin(FoundAt(isConnect, buf, |buf|));
        HostInOrder(begin, buf, server.off, server.off + server.len);
        RangesInOrder(HostLabels(begin, buf, server.off, server.off + server.len), server.off, ranges, f, g);
      } else if ServerPart(f) || ServerPart(g) {
        OutsideInOrder(buf, isConnect, server, f, g);
      } else {
        UrlInOrder(UrlStart(isConnect), buf, |buf|);
        RangesInOrder(UrlLabels(UrlStart(isConnect), buf, |buf|), 0, ranges, f, g);
      }
    }

    /** A component outside the server part lies before or after all of it. */
    lemma OutsideInOrder(buf: seq<byte>, isConnect: bool, server: Range, f: Field, g: Field)
      requires Splits(buf, isConnect, server) && Recorded(buf, isConnect, server)
      requires f in ranges && g in ranges && Place(f) < Place(g) && ServerPart(f) != ServerPart(g)
      ensures ranges[f].off + ranges[f].len <= ranges[g].off
      ensures ranges[g].off + ranges[g].len <= |buf|
    {
      hide UrlLabels;
      hide HostLabels;
      hide HostAfter;
      hide UrlAfter;
      hide Exact;
      hide HasPart;
      var labels := UrlLabels(UrlStart(isConnect), buf, |buf|);
      var outer := ranges[HOST := server];
      var f', g' := if ServerPart(f) then HOST else f, if ServerPart(g) then HOST else g;
      UrlInOrder(UrlStart(isConnect), buf, |buf|);
      SameExact(labels, map[HOST := server], outer, HOST);
      SameExact(labels, ranges, outer, if ServerPart(f) then g else f);
      RangesInOrder(labels, 0, outer, f', g');
    }

    /** http_parser_parse_url: 0 exactly for what the grammar allows, with a port that fits and, for CONNECT, nothing but
      * host and port; every component is then where the grammar says. `server` reports where the first pass found the server part. */
    method ParseUrl(buf: seq<byte>, isConnect: bool) returns (ret: int, ghost server: Range)
      requires |buf| <= 65535
      modifies this
      ensures ret == 0 || ret == 1
      ensures HasServer(buf, isConnect) ==> ServerAt(buf, isConnect, server)
      ensures ret == 0 <==> UrlOk(buf, isConnect) && (isConnect ==> OnlyHostAndPort(buf, isConnect))
                            && PortNumber(buf, isConnect) <= 65535
      ensures ret == 0 ==> Placed(buf, isConnect) && port == PortNumber(buf, isConnect)
      ensures ret == 0 ==> Splits(buf, isConnect, server)
      ensures Splits(buf, isConnect, server) ==> Recorded(buf, isConnect, server)
      ensures Splits(buf, isConnect, server) ==>
                (ret == 0 <==> (isConnect ==> ranges.Keys == {HOST, PORT})
                               && (PORT in ranges ==> PortValue(buf) <= 65535))
      ensures ret == 0 ==> port == if PORT in ranges then PortValue(buf) else 0
    {
      hide Splits;
      hide Recorded;
      hide ServerAt;
      hide HasServer;
      hide UrlOk;
      hide Where;
      hide Digits;
      var ok;
      ok, server := Split(buf, isConnect);
      SplitsExactly(buf, isConnect, server);
      if ok {
        RangesExactly(buf, isConnect, server);
        WhereInside(buf, isConnect, PORT);
        NoPort(buf, isConnect);
      }
      if !ok || (isConnect && ranges.Keys != {HOST, PORT}) {
        return 1, server;
      }
      if PORT in ranges {
        PortDigits(buf, isConnect, server);
        var v := Strtoul(buf, ranges[PORT].off);
        if v > 0xffff {
          return 1, server;
        }
        port := v;
      }
      return 0, server;
    }

    /** Both passes; `server` reports where the first one found the server part. */
    method Split(buf: seq<byte>, isConnect: bool) returns (ok: bool, ghost server: Range)
      modifies this
      ensures HasServer(buf, isConnect) ==> ServerAt(buf, isConnect, server)
      ensures ok <==> Splits(buf, isConnect, server)
      ensures ok ==> Recorded(buf, isConnect, server)
      ensures PORT in ranges && ok ==> ranges[PORT].off + ranges[PORT].len <= |buf|
      ensures port == 0
    {
      hide UrlLabels;
      hide HostLabels;
      hide FoundAt;
      hide UrlAfter;
      hide HostAfter;
      hide Exact;
      hide HasPart;
      var first, foundAt := Components(buf, isConnect);
      server := if HOST in ranges then ranges[HOST] else Range(0, 0);
      if !first {
        return false, server;
      }
      PresentParts(buf, isConnect);
      if HOST !in ranges {
        return SCHEMA !in ranges, server;
      }
      SameRange(UrlLabels(UrlStart(isConnect), buf, |buf|), ranges, HOST);
      ghost var before := ranges;
      var ret := ParseHost(buf, foundAt);
      forall f | !ServerPart(f)
        ensures Exact(UrlLabels(UrlStart(isConnect), buf, |buf|), 0, ranges, f) && Inside(0, |buf|, ranges, f)
      {
        SameExact(UrlLabels(UrlStart(isConnect), buf, |buf|), before, ranges, f);
      }
      ok := ret == 0;
    }

    function PortValue(buf: seq<byte>): int
      requires PORT in ranges && ranges[PORT].off + ranges[PORT].len <= |buf|
      reads this`ranges
    {
      Digits(buf, ranges[PORT].off, ranges[PORT].off + ranges[PORT].len)
    }

    /** What both machines accept is what the grammar allows, and the server part lies where it says. */
    lemma SplitsExactly(buf: seq<byte>, isConnect: bool, server: Range)
      requires HasServer(buf, isConnect) ==> ServerAt(buf, isConnect, server)
      ensures Splits(buf, isConnect, server) <==> UrlOk(buf, isConnect)
      ensures UrlOk(buf, isConnect) && HasServer(buf, isConnect) ==> server == FirstRange(buf, isConnect, HOST)
      ensures UrlOk(buf, isConnect) ==> (HasServer(buf, isConnect) <==> ServerFrom(buf, isConnect) < ServerTo(buf, isConnect))
    {
      hide UrlAfter;
      hide HostAfter;
      hide Legal;
      hide HostLegal;
      hide StateAt;
      hide FoundAt;
      hide UrlLabels;
      hide HasPart;
      hide Exact;
      hide ServerFrom;
      hide ServerTo;
      hide AtSign;
      var labels := UrlLabels(UrlStart(isConnect), buf, |buf|);
      var from, end := ServerFrom(buf, isConnect), ServerTo(buf, isConnect);
      UrlMachine(buf, isConnect, |buf|);
      if LegalTo(buf, isConnect, |buf|) {
        AliveAtEnd(buf, isConnect);
        PartsExactly(buf, isConnect);
        FoundAtExactly(buf, isConnect);
        if from < end {
          ServerPlace(buf, isConnect);
          ServerUnique(labels, FirstRange(buf, isConnect, HOST), server);
          ServerAccepted(buf, from, end);
        }
      }
    }

    lemma OuterRange(buf: seq<byte>, isConnect: bool, server: Range, f: Field)
      requires Splits(buf, isConnect, server) && Recorded(buf, isConnect, server) && UrlOk(buf, isConnect)
      requires !ServerPart(f)
      ensures f in ranges <==> Where(buf, isConnect, f).len > 0
      ensures f in ranges ==> ranges[f] == Where(buf, isConnect, f)
    {
      hide UrlAfter;
      hide HostRecord;
      hide Legal;
      hide ServerOk;
      hide UrlLabels;
      hide HasPart;
      hide Exact;
      hide Inside;
      hide Where;
      hide In;
      var labels := UrlLabels(UrlStart(isConnect), buf, |buf|);
      WhereInside(buf, isConnect, f);
      forall k | 0 <= k < |buf| ensures labels[k] == Part(f) <==> In(0 + k, Where(buf, isConnect, f)) {
        UrlLabelAt(buf, isConnect, k, f);
      }
      SamePlace(labels, 0, ranges, f, Where(buf, isConnect, f));
    }

    lemma InnerRange(buf: seq<byte>, isConnect: bool, server: Range, f: Field)
      requires Recorded(buf, isConnect, server) && UrlOk(buf, isConnect) && ServerPart(f)
      requires HasPart(UrlLabels(UrlStart(isConnect), buf, |buf|), HOST)
      requires server == FirstRange(buf, isConnect, HOST) && ServerFrom(buf, isConnect) < ServerTo(buf, isConnect)
      ensures f in ranges <==> Where(buf, isConnect, f).len > 0
      ensures f in ranges ==> ranges[f] == Where(buf, isConnect, f)
    {
      hide UrlAfter;
      hide HostAfter;
      hide LegalTo;
      hide ServerOk;
      hide FoundAt;
      hide UrlLabels;
      hide HostLabels;
      hide HasPart;
      hide Exact;
      hide Inside;
      hide Where;
      hide In;
      var from, end := ServerFrom(buf, isConnect), ServerTo(buf, isConnect);
      WhereInside(buf, isConnect, f);
      FoundAtExactly(buf, isConnect);
      var inner := HostLabels(HostBegin(AtSign(buf, from, end) < end), buf, from, end);
      forall k | 0 <= k < end - from ensures inner[k] == Part(f) <==> In(from + k, Where(buf, isConnect, f)) {
        HostLabelAt(buf, isConnect, from + k, f);
      }
      SamePlace(inner, from, ranges, f, Where(buf, isConnect, f));
    }

    /** Every component lies where the grammar says. */
    lemma RangesExactly(buf: seq<byte>, isConnect: bool, server: Range)
      requires Splits(buf, isConnect, server) && Recorded(buf, isConnect, server) && UrlOk(buf, isConnect)
      requires HasServer(buf, isConnect) <==> ServerFrom(buf, isConnect) < ServerTo(buf, isConnect)
      requires HasServer(buf, isConnect) ==> server == FirstRange(buf, isConnect, HOST)
      ensures Placed(buf, isConnect)
    {
      hide UrlAfter;
      hide HostRecord;
      hide UrlOk;
      hide UrlLabels;
      hide HasPart;
      hide Exact;
      hide Inside;
      hide Where;
      forall f ensures f in ranges <==> Where(buf, isConnect, f).len > 0
               ensures f in ranges ==> ranges[f] == Where(buf, isConnect, f)
      {
        if !ServerPart(f) {
          OuterRange(buf, isConnect, server, f);
        } else if ServerFrom(buf, isConnect) < ServerTo(buf, isConnect) {
          InnerRange(buf, isConnect, server, f);
        } else {
          WhereInside(buf, isConnect, f);
        }
      }
    }

    /** The recorded ranges are the places of the components, and nothing else is recorded. */
    ghost predicate Placed(buf: seq<byte>, isConnect: bool)
      reads this`ranges
    {
      && (forall f :: f in ranges <==> Where(buf, isConnect, f).len > 0)
      && (forall f :: f in ranges ==> ranges[f] == Where(buf, isConnect, f))
    }

    lemma PresentParts(buf: seq<byte>, isConnect: bool)
      requires forall f :: FirstPass(f) ==>
                 Exact(UrlLabels(UrlStart(isConnect), buf, |buf|), 0, ranges, f) && Inside(0, |buf|, ranges, f)
      requires forall f :: f in ranges ==> FirstPass(f) && ranges[f].len > 0
      ensures forall f :: FirstPass(f) ==> (f in ranges <==> HasPart(UrlLabels(UrlStart(isConnect), buf, |buf|), f))
    {
      hide UrlAfter;
      hide UrlLabel;
      var labels := UrlLabels(UrlStart(isConnect), buf, |buf|);
      forall f | FirstPass(f) ensures f in ranges <==> HasPart(labels, f) {
        if f in ranges {
          SomeLabel(labels, 0, ranges, f);
        }
      }
    }

    /** The port's digits are all the digits there are from its start on. */
    lemma PortDigits(buf: seq<byte>, isConnect: bool, server: Range)
      requires Splits(buf, isConnect, server) && Recorded(buf, isConnect, server) && PORT in ranges
      ensures DigitsEnd(buf, ranges[PORT].off) == ranges[PORT].off + ranges[PORT].len
    {
      hide UrlAfter;
      hide HostAfter;
      var begin := HostBegin(FoundAt(isConnect, buf, |buf|));
      var from, to := ranges[PORT].off, ranges[PORT].off + ranges[PORT].len;
      var labels := HostLabels(begin, buf, server.off, to);
      assert Exact(labels, server.off, ranges, PORT) && Inside(server.off, to - server.off, ranges, PORT) by {
        assert ServerPart(PORT);
      }
      forall k | from <= k < to ensures IsNum(buf[k]) {
        assert labels[k - server.off] == Part(PORT);
        assert labels[k - server.off] == HostLabel(HostAfter(begin, buf, server.off, k + 1));
        HostStep(FoundAt(isConnect, buf, |buf|), buf, server.off, k);
      }
      if to < |buf| {
        AfterServer(buf, isConnect, server, to);
      }
      DigitsRun(buf, from, to);
    }

    lemma HostRecordStart(buf: seq<byte>, foundAt: bool, from: nat)
      requires from <= |buf| && HOST in ranges && ranges[HOST].len == 0 && USERINFO !in ranges && PORT !in ranges
      ensures HostRecord(ranges, buf, foundAt, from, from)
      ensures HostAfter(HostBegin(foundAt), buf, from, from) == HostBegin(foundAt)
    {
    }

    /** One byte of the second pass. */
    method RecordByte(buf: seq<byte>, foundAt: bool, from: nat, p: nat, s: HostState, newS: HostState)
      requires from <= p < |buf| && HostRecord(ranges, buf, foundAt, from, p)
      requires s == HostAfter(HostBegin(foundAt), buf, from, p) && newS == HostChar(s, buf[p]) && newS != HostDead
      requires newS == HostAfter(HostBegin(foundAt), buf, from, p + 1)
      modifies this`ranges
      ensures HostRecord(ranges, buf, foundAt, from, p + 1)
      ensures forall f :: !ServerPart(f) ==> (f in ranges <==> f in old(ranges))
      ensures forall f :: !ServerPart(f) && f in ranges ==> ranges[f] == old(ranges)[f]
    {
      hide Grouped;
      hide HostAfter;
      hide Exact;
      hide Inside;
      hide HostLabels;
      ghost var labels, before := HostLabels(HostBegin(foundAt), buf, from, p), ranges;
      HostLabelsSnoc(HostBegin(foundAt), buf, from, p);
      HostGrouped(HostBegin(foundAt), buf, from, p + 1);
      LastHostLabel(foundAt, buf, from, p);
      match newS {
        case Host =>
          if s != Host {
            FreshIsEmpty(labels, from, ranges, HOST);
            ranges := ranges[HOST := ranges[HOST].(off := p)];
          }
          ranges := ranges[HOST := ranges[HOST].(len := ranges[HOST].len + 1)];
        case V6 =>
          if s != V6 {
            FreshIsEmpty(labels, from, ranges, HOST);
            ranges := ranges[HOST := ranges[HOST].(off := p)];
          }
          ranges := ranges[HOST := ranges[HOST].(len := ranges[HOST].len + 1)];
        case V6ZoneStart =>
          ranges := ranges[HOST := ranges[HOST].(len := ranges[HOST].len + 1)];
        case V6Zone =>
          ranges := ranges[HOST := ranges[HOST].(len := ranges[HOST].len + 1)];
        case Port =>
          if s != Port {
            ranges := ranges[PORT := Range(p, 0)];
          }
          ranges := ranges[PORT := ranges[PORT].(len := ranges[PORT].len + 1)];
        case Userinfo =>
          if s != Userinfo {
            ranges := ranges[USERINFO := Range(p, 0)];
          }
          ranges := ranges[USERINFO := ranges[USERINFO].(len := ranges[USERINFO].len + 1)];
        case _ =>
      }
      ByteRecorded(before, ranges, buf, foundAt, from, p, s, newS);
    }
  }

  /** The first pass's record of one more byte, for every component at once. */
  lemma PartRecorded(labels: Labels, ranges: map<Field, Range>, f: Field, last: Label)
    requires Grouped(labels + [Part(f)]) && last == Newest(labels) && (last.Part? ==> last.field in ranges)
    requires forall g :: FirstPass(g) ==> Exact(labels, 0, ranges, g) && Inside(0, |labels|, ranges, g)
    ensures var after := Extend(ranges, f, |labels|, last != Part(f));
      forall g :: FirstPass(g) ==> Exact(labels + [Part(f)], 0, after, g) && Inside(0, |labels| + 1, after, g)
  {
    hide Exact;
    hide Inside;
    hide Grouped;
    hide Newest;
    LastIsNewest(labels, Part(f));
    forall g | FirstPass(g)
      ensures Exact(labels + [Part(f)], 0, Extend(ranges, f, |labels|, last != Part(f)), g)
      ensures Inside(0, |labels| + 1, Extend(ranges, f, |labels|, last != Part(f)), g)
    {
      ExtendExact(labels, 0, ranges, f, last != Part(f), g);
    }
  }

  lemma DelimiterRecorded(labels: Labels, ranges: map<Field, Range>)
    requires forall g :: FirstPass(g) ==> Exact(labels, 0, ranges, g) && Inside(0, |labels|, ranges, g)
    ensures forall g :: FirstPass(g) ==>
              Exact(labels + [Delimiter], 0, ranges, g) && Inside(0, |labels| + 1, ranges, g)
  {
    hide Exact;
    hide Inside;
    forall g | FirstPass(g)
      ensures Exact(labels + [Delimiter], 0, ranges, g) && Inside(0, |labels| + 1, ranges, g)
    {
      DelimiterExact(labels, 0, ranges, g);
    }
  }

  lemma NoPort(buf: seq<byte>, isConnect: bool)
    ensures Where(buf, isConnect, PORT).len == 0 ==> PortNumber(buf, isConnect) == 0
  {
    hide Where;
  }

  lemma AliveAtEnd(buf: seq<byte>, isConnect: bool)
    requires LegalTo(buf, isConnect, |buf|)
    ensures StateAt(buf, isConnect, |buf|) != Dead
  {
  }

  lemma PartsExactly(buf: seq<byte>, isConnect: bool)
    requires LegalTo(buf, isConnect, |buf|)
    ensures var labels := UrlLabels(UrlStart(isConnect), buf, |buf|);
      && (HasPart(labels, HOST) <==> ServerFrom(buf, isConnect) < ServerTo(buf, isConnect))
      && (HasPart(labels, SCHEMA) <==> SchemaFirst(buf, isConnect))
  {
    hide UrlAfter;
    hide ServerFrom;
    hide ServerTo;
    hide UrlLabels;
    var labels := UrlLabels(UrlStart(isConnect), buf, |buf|);
    PartExactly(buf, isConnect, HOST);
    PartExactly(buf, isConnect, SCHEMA);
    SchemaBegins(buf, isConnect);
  }

  lemma PartExactly(buf: seq<byte>, isConnect: bool, f: Field)
    requires LegalTo(buf, isConnect, |buf|) && FirstPass(f)
    requires FirstRange(buf, isConnect, f).off + FirstRange(buf, isConnect, f).len <= |buf|
    ensures HasPart(UrlLabels(UrlStart(isConnect), buf, |buf|), f) <==> FirstRange(buf, isConnect, f).len > 0
  {
    hide FirstRange;
    hide UrlLabels;
    var labels, r := UrlLabels(UrlStart(isConnect), buf, |buf|), FirstRange(buf, isConnect, f);
    if r.len > 0 {
      UrlLabelAt(buf, isConnect, r.off, f);
    }
    if HasPart(labels, f) {
      var k :| 0 <= k < |labels| && labels[k] == Part(f);
      UrlLabelAt(buf, isConnect, k, f);
    }
  }

  lemma SchemaBegins(buf: seq<byte>, isConnect: bool)
    requires LegalTo(buf, isConnect, |buf|)
    ensures SchemaFirst(buf, isConnect) <==> SchemaTo(buf, isConnect) > 0
  {
    if SchemaFirst(buf, isConnect) {
      assert Legal(buf, isConnect, 0);
      SchemaBytes(buf, isConnect, 0);
    }
  }

  lemma ServerPlace(buf: seq<byte>, isConnect: bool)
    requires LegalTo(buf, isConnect, |buf|)
    ensures Exact(UrlLabels(UrlStart(isConnect), buf, |buf|), 0, map[HOST := FirstRange(buf, isConnect, HOST)], HOST)
  {
    hide UrlAfter;
    hide UrlLabels;
    forall k | 0 <= k < |buf|
      ensures UrlLabels(UrlStart(isConnect), buf, |buf|)[k] == Part(HOST) <==> In(k, FirstRange(buf, isConnect, HOST))
    {
      UrlLabelAt(buf, isConnect, k, HOST);
    }
  }

  lemma FoundAtExactly(buf: seq<byte>, isConnect: bool)
    requires LegalTo(buf, isConnect, |buf|)
    ensures var (from, end) := (ServerFrom(buf, isConnect), ServerTo(buf, isConnect));
      FoundAt(isConnect, buf, |buf|) <==> AtSign(buf, from, end) < end
  {
    hide UrlAfter;
    hide Legal;
    hide ServerFrom;
    hide ServerTo;
    var from, end := ServerFrom(buf, isConnect), ServerTo(buf, isConnect);
    var at := AtSign(buf, from, end);
    if at < end {
      FoundExactly(buf, isConnect, at + 1);
    }
    if FoundAt(isConnect, buf, |buf|) {
      var n :| 0 <= n <= |buf| && UrlAfter(UrlStart(isConnect), buf, n) == ServerWithAt;
      FoundExactly(buf, isConnect, n);
      assert from <= n - 1 < end && buf[n - 1] == AT;
    }
  }

  lemma WhereInside(buf: seq<byte>, isConnect: bool, f: Field)
    requires UrlOk(buf, isConnect)
    ensures var (r, from, end) := (Where(buf, isConnect, f), ServerFrom(buf, isConnect), ServerTo(buf, isConnect));
      && r.off + r.len <= |buf|
      && (ServerPart(f) ==> from <= r.off && r.off + r.len <= end)
      && (ServerPart(f) && from == end ==> r.len == 0)
  {
    hide LegalTo;
    hide HostLegalTo;
  }

  /** The byte after the server part is no digit. */
  lemma AfterServer(buf: seq<byte>, isConnect: bool, server: Range, p: nat)
    requires 0 < server.len && p == server.off + server.len < |buf|
    requires UrlAfter(UrlStart(isConnect), buf, |buf|) != Dead
    requires Exact(UrlLabels(UrlStart(isConnect), buf, |buf|), 0, map[HOST := server], HOST)
    ensures !IsNum(buf[p])
  {
    hide UrlAfter;
    var start := UrlStart(isConnect);
    var labels := UrlLabels(start, buf, |buf|);
    assert labels[p - 1] == Part(HOST) && labels[p] != Part(HOST);
    NextUrl(isConnect, buf, p);
    if UrlAfter(start, buf, p + 1) == Dead {
      UrlDead(start, buf, p + 1, |buf|);
    }
  }

  lemma {:induction false} DigitsRun(buf: seq<byte>, from: nat, end: nat)
    requires from <= end <= |buf| && (forall k :: from <= k < end ==> IsNum(buf[k]))
    requires end < |buf| ==> !IsNum(buf[end])
    ensures DigitsEnd(buf, from) == end
    decreases end - from
  {
    if from < end {
      DigitsRun(buf, from + 1, end);
    }
  }

  /** There is only one such range, so what Splits says does not depend on how it was found. */
  lemma ServerUnique(labels: Labels, a: Range, b: Range)
    requires HasPart(labels, HOST) && a.off + a.len <= |labels| && b.off + b.len <= |labels|
    requires Exact(labels, 0, map[HOST := a], HOST) && Exact(labels, 0, map[HOST := b], HOST)
    ensures a == b
  {
    var k :| 0 <= k < |labels| && labels[k] == Part(HOST);
    assert labels[a.off] == Part(HOST) && labels[b.off] == Part(HOST);
    assert labels[a.off + a.len - 1] == Part(HOST) && labels[b.off + b.len - 1] == Part(HOST);
  }

  lemma SameRange(labels: Labels, ranges: map<Field, Range>, f: Field)
    requires f in ranges && Exact(labels, 0, ranges, f)
    ensures Exact(labels, 0, map[f := ranges[f]], f)
  {
  }

  lemma SameExact(labels: Labels, before: map<Field, Range>, ranges: map<Field, Range>, f: Field)
    requires Exact(labels, 0, before, f) && (f in ranges <==> f in before) && (f in ranges ==> ranges[f] == before[f])
    ensures Exact(labels, 0, ranges, f)
  {
  }

  lemma HostStep(foundAt: bool, buf: seq<byte>, from: nat, p: nat)
    requires from <= p < |buf|
    ensures HostAfter(HostBegin(foundAt), buf, from, p + 1)
         == HostChar(HostAfter(HostBegin(foundAt), buf, from, p), buf[p])
  {
    hide HostChar;
  }

  /** The label of the state before a byte tells whether the byte starts a run. */
  lemma LastHostLabel(foundAt: bool, buf: seq<byte>, from: nat, p: nat)
    requires from <= p <= |buf|
    ensures var labels := HostLabels(HostBegin(foundAt), buf, from, p);
      HostLabel(HostAfter(HostBegin(foundAt), buf, from, p))
      == if labels == [] then Delimiter else labels[|labels| - 1]
  {
    hide HostChar;
  }

  lemma FreshIsEmpty(labels: Labels, base: nat, ranges: map<Field, Range>, f: Field)
    requires Exact(labels, base, ranges, f) && Inside(base, |labels|, ranges, f) && f in ranges
    requires Grouped(labels + [Part(f)]) && (labels == [] || labels[|labels| - 1] != Part(f))
    ensures ranges[f].len == 0
  {
    NoneBefore(labels, f);
    if ranges[f].len > 0 {
      SomeLabel(labels, base, ranges, f);
    }
  }

  lemma SomeLabel(labels: Labels, base: nat, ranges: map<Field, Range>, f: Field)
    requires Exact(labels, base, ranges, f) && Inside(base, |labels|, ranges, f) && f in ranges && ranges[f].len > 0
    ensures exists k :: 0 <= k < |labels| && labels[k] == Part(f)
  {
    assert labels[ranges[f].off - base] == Part(f);
  }

  /** The component of the most recent byte that was no delimiter. */
  function Newest(labels: Labels): Label {
    if labels == [] then Delimiter
    else if labels[|labels| - 1].Part? then labels[|labels| - 1]
    else Newest(labels[..|labels| - 1])
  }

  lemma NothingNewest()
    ensures Newest([]) == Delimiter
  {
  }

  lemma NewestSnoc(labels: Labels, l: Label)
    ensures Newest(labels + [l]) == if l.Part? then l else Newest(labels)
  {
    assert (labels + [l])[..|labels|] == labels;
  }

  lemma {:induction false} NewestOccurs(labels: Labels) returns (k: nat)
    requires Newest(labels).Part?
    ensures k < |labels| && labels[k] == Newest(labels)
    ensures forall j :: k < j < |labels| ==> labels[j] == Delimiter
  {
    var n := |labels| - 1;
    if labels[n].Part? {
      k := n;
    } else {
      k := NewestOccurs(labels[..n]);
    }
  }

  /** Because components are grouped, the newest one continues only if it was the very last label. */
  lemma LastIsNewest(labels: Labels, l: Label)
    requires l.Part? && Grouped(labels + [l])
    ensures Newest(labels) != l <==> labels == [] || labels[|labels| - 1] != l
  {
    if Newest(labels) == l {
      var k := NewestOccurs(labels);
      var n := |labels|;
      var all := labels + [l];
      assert all[k] == labels[k] && all[n] == l && all[n - 1] == labels[n - 1];
    }
  }

  lemma NoLabels(ranges: map<Field, Range>)
    requires ranges == map[]
    ensures forall f :: Exact([], 0, ranges, f) && Inside(0, 0, ranges, f)
  {
  }

  lemma StartOfUrl(isConnect: bool, buf: seq<byte>)
    ensures UrlAfter(UrlStart(isConnect), buf, 0) == UrlStart(isConnect)
    ensures !FoundAt(isConnect, buf, 0)
  {
  }

  lemma NextUrl(isConnect: bool, buf: seq<byte>, i: nat)
    requires i < |buf|
    ensures UrlAfter(UrlStart(isConnect), buf, i + 1) == UrlChar(UrlAfter(UrlStart(isConnect), buf, i), buf[i])
    ensures FoundAt(isConnect, buf, i + 1) <==>
            FoundAt(isConnect, buf, i) || UrlAfter(UrlStart(isConnect), buf, i + 1) == ServerWithAt
  {
    hide UrlChar;
  }
}
