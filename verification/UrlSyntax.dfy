/** The two character machines of the URL splitter, and which component each byte belongs to. */
module UrlSyntax {

  import opened HttpBytes

  datatype UrlState =
    | Dead | SpacesBeforeUrl | Schema | SchemaSlash | SchemaSlashSlash | ServerStart | Server | ServerWithAt
    | Path | QueryStart | Query | FragmentStart | Fragment

  datatype HostState =
    | HostDead | UserinfoStart | Userinfo | HostStart | V6Start | Host | V6 | V6End | V6ZoneStart | V6Zone
    | PortStart | Port

  datatype Field = SCHEMA | USERINFO | HOST | PORT | PATH | QUERY | FRAGMENT

  datatype Label = Delimiter | Part(field: Field)

  predicate IsAlpha(b: byte) {
    97 <= Lower(b) <= 122
  }

  predicate IsHex(b: byte) {
    IsNum(b) || 97 <= Lower(b) <= 102
  }

  predicate IsMark(b: byte) {
    b in {45, 95, 46, 33, 126, 42, 39, 40, 41}
  }

  predicate IsUserinfoChar(b: byte) {
    IsAlpha(b) || IsNum(b) || IsMark(b) || b in {37, 59, 58, 38, 61, 43, 36, 44}
  }

  predicate IsHostChar(b: byte) {
    IsAlpha(b) || IsNum(b) || b == 46 || b == 45
  }

  /** The normal_url_char bit table: printable ASCII but '#' and '?'. */
  predicate IsUrlChar(b: byte) {
    33 <= b <= 126 && b != 35 && b != 63
  }

  const AT: byte := 64
  const QUESTION: byte := 63
  const HASH: byte := 35
  const LBRACKET: byte := 91
  const RBRACKET: byte := 93
  const PERCENT: byte := 37

  function UrlChar(s: UrlState, b: byte): UrlState {
    if b == SP || b == CR || b == LF || b == TAB || b == 12 then Dead
    else match s
      case SpacesBeforeUrl =>
        if b == SLASH || b == 42 then Path else if IsAlpha(b) then Schema else Dead
      case Schema => if IsAlpha(b) then Schema else if b == COLON then SchemaSlash else Dead
      case SchemaSlash => if b == SLASH then SchemaSlashSlash else Dead
      case SchemaSlashSlash => if b == SLASH then ServerStart else Dead
      case ServerWithAt => if b == AT then Dead else ServerChar(b)
      case ServerStart => ServerChar(b)
      case Server => ServerChar(b)
      case Path => if IsUrlChar(b) then Path else if b == QUESTION then QueryStart
                   else if b == HASH then FragmentStart else Dead
      case QueryStart => QueryChar(b)
      case Query => QueryChar(b)
      case FragmentStart => if IsUrlChar(b) || b == QUESTION then Fragment else if b == HASH then FragmentStart else Dead
      case Fragment => if IsUrlChar(b) || b == QUESTION || b == HASH then Fragment else Dead
      case Dead => Dead
  }

  function ServerChar(b: byte): UrlState {
    if b == SLASH then Path
    else if b == QUESTION then QueryStart
    else if b == AT then ServerWithAt
    else if IsUserinfoChar(b) || b == LBRACKET || b == RBRACKET then Server
    else Dead
  }

  function QueryChar(b: byte): UrlState {
    if IsUrlChar(b) || b == QUESTION then Query else if b == HASH then FragmentStart else Dead
  }

  function HostChar(s: HostState, b: byte): HostState {
    match s
    case UserinfoStart => UserinfoChar(b)
    case Userinfo => UserinfoChar(b)
    case HostStart => if b == LBRACKET then V6Start else if IsHostChar(b) then Host else HostDead
    case Host => if IsHostChar(b) then Host else if b == COLON then PortStart else HostDead
    case V6End => if b == COLON then PortStart else HostDead
    case V6 => if b == RBRACKET then V6End
               else if IsHex(b) || b == COLON || b == DOT then V6
               else if b == PERCENT then V6ZoneStart else HostDead
    case V6Start => if IsHex(b) || b == COLON || b == DOT then V6 else HostDead
    case V6Zone => if b == RBRACKET then V6End else ZoneChar(b)
    case V6ZoneStart => ZoneChar(b)
    case Port => if IsNum(b) then Port else HostDead
    case PortStart => if IsNum(b) then Port else HostDead
    case HostDead => HostDead
  }

  function UserinfoChar(b: byte): HostState {
    if b == AT then HostStart else if IsUserinfoChar(b) then Userinfo else HostDead
  }

  function ZoneChar(b: byte): HostState {
    if IsAlpha(b) || IsNum(b) || b in {37, 46, 45, 95, 126} then V6Zone else HostDead
  }

  // ---------------------------------------------------------------- runs of the machines

  function UrlStart(isConnect: bool): UrlState {
    if isConnect then ServerStart else SpacesBeforeUrl
  }

  function HostBegin(foundAt: bool): HostState {
    if foundAt then UserinfoStart else HostStart
  }

  function UrlAfter(s: UrlState, buf: seq<byte>, n: nat): UrlState
    requires n <= |buf|
  {
    if n == 0 then s else UrlChar(UrlAfter(s, buf, n - 1), buf[n - 1])
  }

  /** The host machine started at `from`, after reading up to `n`. */
  function HostAfter(s: HostState, buf: seq<byte>, from: nat, n: nat): HostState
    requires from <= n <= |buf|
  {
    if n == from then s else HostChar(HostAfter(s, buf, from, n - 1), buf[n - 1])
  }

  function UrlLabel(s: UrlState): Label {
    match s
    case Schema => Part(SCHEMA)
    case Server => Part(HOST)
    case ServerWithAt => Part(HOST)
    case Path => Part(PATH)
    case Query => Part(QUERY)
    case Fragment => Part(FRAGMENT)
    case _ => Delimiter
  }

  function HostLabel(s: HostState): Label {
    match s
    case Userinfo => Part(USERINFO)
    case Host => Part(HOST)
    case V6 => Part(HOST)
    case V6ZoneStart => Part(HOST)
    case V6Zone => Part(HOST)
    case Port => Part(PORT)
    case _ => Delimiter
  }

  /** Both machines only move forward; a label has a rank of its own. */
  function UrlRank(s: UrlState): nat {
    match s
    case SpacesBeforeUrl => 0
    case Schema => 1
    case SchemaSlash => 2
    case SchemaSlashSlash => 3
    case ServerStart => 4
    case Server => 5
    case ServerWithAt => 5
    case Path => 6
    case QueryStart => 7
    case Query => 8
    case FragmentStart => 9
    case Fragment => 10
    case Dead => 11
  }

  function HostRank(s: HostState): nat {
    match s
    case UserinfoStart => 0
    case Userinfo => 1
    case HostStart => 2
    case V6Start => 3
    case Host => 4
    case V6 => 4
    case V6ZoneStart => 4
    case V6Zone => 4
    case V6End => 5
    case PortStart => 6
    case Port => 7
    case HostDead => 8
  }

  lemma {:induction false} UrlForward(s: UrlState, buf: seq<byte>, i: nat, j: nat)
    requires i <= j <= |buf|
    ensures UrlRank(UrlAfter(s, buf, i)) <= UrlRank(UrlAfter(s, buf, j))
    decreases j
  {
    if i < j {
      UrlForward(s, buf, i, j - 1);
    }
  }

  lemma {:induction false} HostForward(s: HostState, buf: seq<byte>, from: nat, i: nat, j: nat)
    requires from <= i <= j <= |buf|
    ensures HostRank(HostAfter(s, buf, from, i)) <= HostRank(HostAfter(s, buf, from, j))
    decreases j
  {
    if i < j {
      HostForward(s, buf, from, i, j - 1);
    }
  }

  // ---------------------------------------------------------------- recording runs

  datatype Range = Range(off: nat, len: nat)

  type Labels = seq<Label>

  /** Equal components are neighbours: nothing else lies between two bytes of one component. */
  ghost predicate Grouped(labels: Labels) {
    forall i, j, k :: 0 <= i <= j <= k < |labels| && labels[i] == labels[k] && labels[i].Part? ==> labels[j] == labels[i]
  }

  /** The range kept for `f` is exactly the set of positions that belong to it. */
  ghost predicate Exact(labels: Labels, base: nat, ranges: map<Field, Range>, f: Field) {
    forall k :: 0 <= k < |labels| ==>
      (labels[k] == Part(f) <==> f in ranges && ranges[f].off <= base + k < ranges[f].off + ranges[f].len)
  }

  /** A range lies within the bytes read so far; an empty one may be anywhere. */
  ghost predicate Inside(base: nat, n: nat, ranges: map<Field, Range>, f: Field) {
    f in ranges && ranges[f].len > 0 ==> base <= ranges[f].off && ranges[f].off + ranges[f].len <= base + n
  }

  /** Extending a run by the byte after it, or starting one, keeps the record exact. */
  function Extend(ranges: map<Field, Range>, f: Field, at: nat, fresh_: bool): map<Field, Range>
    requires !fresh_ ==> f in ranges
  {
    if fresh_ then ranges[f := Range(at, 1)] else ranges[f := ranges[f].(len := ranges[f].len + 1)]
  }

  lemma NoneBefore(labels: Labels, f: Field)
    requires Grouped(labels + [Part(f)]) && (labels == [] || labels[|labels| - 1] != Part(f))
    ensures forall k :: 0 <= k < |labels| ==> labels[k] != Part(f)
  {
    var n := |labels|;
    var all := labels + [Part(f)];
    forall k | 0 <= k < n ensures labels[k] != Part(f) {
      assert all[k] == labels[k] && all[n] == Part(f) && all[n - 1] == labels[n - 1];
    }
  }

  lemma ExtendExact(labels: Labels, base: nat, ranges: map<Field, Range>, f: Field, fresh_: bool, g: Field)
    requires Grouped(labels + [Part(f)]) && Exact(labels, base, ranges, g) && Inside(base, |labels|, ranges, g)
    requires g == f ==> (fresh_ <==> labels == [] || labels[|labels| - 1] != Part(f))
    requires !fresh_ ==> f in ranges
    ensures Exact(labels + [Part(f)], base, Extend(ranges, f, base + |labels|, fresh_), g)
    ensures Inside(base, |labels| + 1, Extend(ranges, f, base + |labels|, fresh_), g)
  {
    var n := |labels|;
    var all := labels + [Part(f)];
    if g == f {
      if fresh_ {
        NoneBefore(labels, f);
      } else {
        assert labels[n - 1] == Part(f);
        assert base + n - 1 < ranges[f].off + ranges[f].len;
      }
    }
  }

  lemma DelimiterExact(labels: Labels, base: nat, ranges: map<Field, Range>, g: Field)
    requires Exact(labels, base, ranges, g) && Inside(base, |labels|, ranges, g)
    ensures Exact(labels + [Delimiter], base, ranges, g) && Inside(base, |labels| + 1, ranges, g)
  {
  }

  // ---------------------------------------------------------------- the labels of the two machines

  function UrlLabels(s: UrlState, buf: seq<byte>, n: nat): (labels: Labels)
    requires n <= |buf|
    ensures |labels| == n
  {
    seq(n, k requires 0 <= k < n => UrlLabel(UrlAfter(s, buf, k + 1)))
  }

  function HostLabels(s: HostState, buf: seq<byte>, from: nat, n: nat): (labels: Labels)
    requires from <= n <= |buf|
    ensures |labels| == n - from
  {
    seq(n - from, k requires 0 <= k < n - from => HostLabel(HostAfter(s, buf, from, from + k + 1)))
  }

  lemma UrlLabelsSnoc(s: UrlState, buf: seq<byte>, n: nat)
    requires n < |buf|
    ensures UrlLabels(s, buf, n + 1) == UrlLabels(s, buf, n) + [UrlLabel(UrlAfter(s, buf, n + 1))]
  {
  }

  lemma HostLabelsSnoc(s: HostState, buf: seq<byte>, from: nat, n: nat)
    requires from <= n < |buf|
    ensures HostLabels(s, buf, from, n + 1) == HostLabels(s, buf, from, n) + [HostLabel(HostAfter(s, buf, from, n + 1))]
  {
    hide HostAfter;
    hide HostLabel;
  }

  lemma UrlGrouped(s: UrlState, buf: seq<byte>, n: nat)
    requires n <= |buf|
    ensures Grouped(UrlLabels(s, buf, n))
  {
    hide UrlAfter;
    var labels := UrlLabels(s, buf, n);
    forall i, j, k | 0 <= i <= j <= k < |labels| && labels[i] == labels[k] && labels[i].Part?
      ensures labels[j] == labels[i]
    {
      UrlForward(s, buf, i + 1, j + 1);
      UrlForward(s, buf, j + 1, k + 1);
    }
  }

  lemma HostGrouped(s: HostState, buf: seq<byte>, from: nat, n: nat)
    requires from <= n <= |buf|
    ensures Grouped(HostLabels(s, buf, from, n))
  {
    hide HostAfter;
    var labels := HostLabels(s, buf, from, n);
    forall i, j, k | 0 <= i <= j <= k < |labels| && labels[i] == labels[k] && labels[i].Part?
      ensures labels[j] == labels[i]
    {
      assert labels[i] == HostLabel(HostAfter(s, buf, from, from + i + 1));
      assert labels[j] == HostLabel(HostAfter(s, buf, from, from + j + 1));
      assert labels[k] == HostLabel(HostAfter(s, buf, from, from + k + 1));
      HostForward(s, buf, from, from + i + 1, from + j + 1);
      HostForward(s, buf, from, from + j + 1, from + k + 1);
    }
  }

  /** Nothing follows a dead state. */
  lemma {:induction false} UrlDead(s: UrlState, buf: seq<byte>, i: nat, n: nat)
    requires i <= n <= |buf| && UrlAfter(s, buf, i) == Dead
    ensures UrlAfter(s, buf, n) == Dead
    decreases n
  {
    if i < n {
      UrlDead(s, buf, i, n - 1);
    }
  }

  lemma {:induction false} HostIsDead(s: HostState, buf: seq<byte>, from: nat, i: nat, n: nat)
    requires from <= i <= n <= |buf| && HostAfter(s, buf, from, i) == HostDead
    ensures HostAfter(s, buf, from, n) == HostDead
    decreases n
  {
    if i < n {
      HostIsDead(s, buf, from, i, n - 1);
    }
  }

  // ---------------------------------------------------------------- the order of components

  function Place(f: Field): nat {
    match f
    case SCHEMA => 0
    case USERINFO => 1
    case HOST => 2
    case PORT => 3
    case PATH => 4
    case QUERY => 5
    case FRAGMENT => 6
  }

  ghost predicate InOrder(labels: Labels) {
    forall i, j :: 0 <= i <= j < |labels| && labels[i].Part? && labels[j].Part? ==>
      Place(labels[i].field) <= Place(labels[j].field)
  }

  lemma UrlInOrder(s: UrlState, buf: seq<byte>, n: nat)
    requires n <= |buf|
    ensures InOrder(UrlLabels(s, buf, n))
  {
    hide UrlAfter;
    var labels := UrlLabels(s, buf, n);
    forall i, j | 0 <= i <= j < n && labels[i].Part? && labels[j].Part?
      ensures Place(labels[i].field) <= Place(labels[j].field)
    {
      assert labels[i] == UrlLabel(UrlAfter(s, buf, i + 1));
      assert labels[j] == UrlLabel(UrlAfter(s, buf, j + 1));
      UrlForward(s, buf, i + 1, j + 1);
    }
  }

  lemma HostInOrder(s: HostState, buf: seq<byte>, from: nat, n: nat)
    requires from <= n <= |buf|
    ensures InOrder(HostLabels(s, buf, from, n))
  {
    hide HostAfter;
    var labels := HostLabels(s, buf, from, n);
    forall i, j | 0 <= i <= j < |labels| && labels[i].Part? && labels[j].Part?
      ensures Place(labels[i].field) <= Place(labels[j].field)
    {
      assert labels[i] == HostLabel(HostAfter(s, buf, from, from + i + 1));
      assert labels[j] == HostLabel(HostAfter(s, buf, from, from + j + 1));
      HostForward(s, buf, from, from + i + 1, from + j + 1);
    }
  }

  lemma RangesInOrder(labels: Labels, base: nat, ranges: map<Field, Range>, f: Field, g: Field)
    requires InOrder(labels) && Place(f) < Place(g)
    requires f in ranges && Exact(labels, base, ranges, f) && Inside(base, |labels|, ranges, f) && ranges[f].len > 0
    requires g in ranges && Exact(labels, base, ranges, g) && Inside(base, |labels|, ranges, g) && ranges[g].len > 0
    ensures ranges[f].off + ranges[f].len <= ranges[g].off
  {
    var i, j := ranges[f].off + ranges[f].len - 1 - base, ranges[g].off - base;
    assert labels[i] == Part(f) && labels[j] == Part(g);
  }
}
