/** Where the components of a URL lie and which bytes they may hold, said about the bytes alone, and that the two
    character machines accept and label exactly that. */
module UrlGrammar {

  import opened HttpBytes
  import opened UrlSyntax

  /** The first position in [from, end) that holds one of these bytes, or `end`. */
  function FirstOf(buf: seq<byte>, from: nat, end: nat, wanted: set<byte>): (n: nat)
    requires from <= end <= |buf|
    ensures from <= n <= end && (n < end ==> buf[n] in wanted)
    ensures forall k :: from <= k < n ==> buf[k] !in wanted
    decreases end - from
  {
    if from == end || buf[from] in wanted then from else FirstOf(buf, from + 1, end, wanted)
  }

  /** The first position from `from` on that does not hold this byte, or the end. */
  function Behind(buf: seq<byte>, from: nat, b: byte): (n: nat)
    requires from <= |buf|
    ensures from <= n <= |buf| && (n < |buf| ==> buf[n] != b)
    ensures forall k :: from <= k < n ==> buf[k] == b
    decreases |buf| - from
  {
    if from == |buf| || buf[from] != b then from else Behind(buf, from + 1, b)
  }

  // ----- character sets -----------------------------------------------------------------------

  predicate Letter(b: byte) {
    65 <= b <= 90 || 97 <= b <= 122
  }

  predicate LetterOrDigit(b: byte) {
    Letter(b) || 48 <= b <= 57
  }

  /** Letters, digits, and - _ . ! ~ * ' ( ) % ; : & = + $ , */
  predicate UserinfoByte(b: byte) {
    LetterOrDigit(b) || b in {45, 95, 46, 33, 126, 42, 39, 40, 41, 37, 59, 58, 38, 61, 43, 36, 44}
  }

  predicate ServerByte(b: byte) {
    UserinfoByte(b) || b == AT || b == LBRACKET || b == RBRACKET
  }

  /** Printable ASCII but '#' and '?'. */
  predicate PathByte(b: byte) {
    33 <= b <= 126 && b != HASH && b != QUESTION
  }

  predicate HostByte(b: byte) {
    LetterOrDigit(b) || b == DOT || b == 45
  }

  /** Hexadecimal digits, '.' and ':'. */
  predicate V6Byte(b: byte) {
    48 <= b <= 57 || 65 <= b <= 70 || 97 <= b <= 102 || b == DOT || b == COLON
  }

  predicate ZoneByte(b: byte) {
    LetterOrDigit(b) || b in {37, 46, 45, 95, 126}
  }

  // ----- the parts of a URL -------------------------------------------------------------------

  /** A URL that begins with its path: '/' or '*'. */
  predicate PathFirst(buf: seq<byte>, isConnect: bool) {
    !isConnect && buf != [] && (buf[0] == SLASH || buf[0] == 42)
  }

  /** A URL that has to begin with a schema. */
  predicate SchemaFirst(buf: seq<byte>, isConnect: bool) {
    !isConnect && buf != [] && buf[0] != SLASH && buf[0] != 42
  }

  /** The schema lies before the first ':'. */
  function SchemaTo(buf: seq<byte>, isConnect: bool): (n: nat)
    ensures n <= |buf|
  {
    if SchemaFirst(buf, isConnect) then FirstOf(buf, 0, |buf|, {COLON}) else 0
  }

  /** The server part begins behind "://". */
  function ServerFrom(buf: seq<byte>, isConnect: bool): (n: nat)
    ensures n <= |buf|
  {
    if !SchemaFirst(buf, isConnect) then 0
    else if SchemaTo(buf, isConnect) + 3 <= |buf| then SchemaTo(buf, isConnect) + 3
    else |buf|
  }

  /** It ends at the first '/' or '?'. */
  function ServerTo(buf: seq<byte>, isConnect: bool): (n: nat)
    ensures ServerFrom(buf, isConnect) <= n <= |buf|
  {
    if PathFirst(buf, isConnect) then 0 else FirstOf(buf, ServerFrom(buf, isConnect), |buf|, {SLASH, QUESTION})
  }

  /** A path begins with that '/' and ends at the first '?' or '#'. */
  function PathTo(buf: seq<byte>, isConnect: bool): (n: nat)
    ensures ServerTo(buf, isConnect) <= n <= |buf|
    ensures n < |buf| ==> buf[n] == QUESTION || buf[n] == HASH
  {
    var from := ServerTo(buf, isConnect);
    if PathFirst(buf, isConnect) || (from < |buf| && buf[from] == SLASH) then FirstOf(buf, from, |buf|, {QUESTION, HASH})
    else from
  }

  /** A query lies behind a '?' there, and ends at the first '#'. */
  function QueryTo(buf: seq<byte>, isConnect: bool): (n: nat)
    ensures PathTo(buf, isConnect) <= n <= |buf|
    ensures n < |buf| ==> buf[n] == HASH
  {
    var from := PathTo(buf, isConnect);
    if from < |buf| && buf[from] == QUESTION then FirstOf(buf, from + 1, |buf|, {HASH}) else from
  }

  /** The fragment lies behind that '#' and any further ones. */
  function FragmentFrom(buf: seq<byte>, isConnect: bool): (n: nat)
    ensures QueryTo(buf, isConnect) <= n <= |buf|
  {
    Behind(buf, QueryTo(buf, isConnect), HASH)
  }

  /** The byte may stand where it stands. */
  predicate Legal(buf: seq<byte>, isConnect: bool, k: nat)
    requires k < |buf|
  {
    if k >= FragmentFrom(buf, isConnect) then PathByte(buf[k]) || buf[k] == QUESTION || buf[k] == HASH
    else if k >= QueryTo(buf, isConnect) then true
    else if k > PathTo(buf, isConnect) then PathByte(buf[k]) || buf[k] == QUESTION
    else if k == PathTo(buf, isConnect) then true
    else if k >= ServerTo(buf, isConnect) then PathByte(buf[k])
    else if k >= ServerFrom(buf, isConnect) then
      ServerByte(buf[k]) && !(k > ServerFrom(buf, isConnect) && buf[k - 1] == AT && buf[k] == AT)
    else if k < SchemaTo(buf, isConnect) then Letter(buf[k])
    else if k == SchemaTo(buf, isConnect) then k > 0
    else buf[k] == SLASH
  }

  /** The state the first machine is in behind `n` legal bytes. */
  function StateAt(buf: seq<byte>, isConnect: bool, n: nat): UrlState
    requires n <= |buf|
  {
    if n == 0 then UrlStart(isConnect)
    else if n > FragmentFrom(buf, isConnect) then Fragment
    else if n > QueryTo(buf, isConnect) then FragmentStart
    else if n > PathTo(buf, isConnect) + 1 then Query
    else if n == PathTo(buf, isConnect) + 1 then QueryStart
    else if n > ServerTo(buf, isConnect) then Path
    else if n > ServerFrom(buf, isConnect) then if buf[n - 1] == AT then ServerWithAt else Server
    else if n <= SchemaTo(buf, isConnect) then Schema
    else if n == SchemaTo(buf, isConnect) + 1 then SchemaSlash
    else if n == SchemaTo(buf, isConnect) + 2 then SchemaSlashSlash
    else ServerStart
  }

  lemma LetterIsAlpha(b: byte)
    ensures IsAlpha(b) <==> Letter(b)
    ensures IsHex(b) <==> 48 <= b <= 57 || 65 <= b <= 70 || 97 <= b <= 102
  {
  }

  lemma ClassesAgree(b: byte)
    ensures IsAlpha(b) <==> Letter(b)
    ensures IsUserinfoChar(b) <==> UserinfoByte(b)
    ensures IsUrlChar(b) <==> PathByte(b)
    ensures UserinfoByte(b) || PathByte(b) ==> b > 32
  {
    LetterIsAlpha(b);
    hide IsAlpha;
  }

  /** What the positions say about the byte at `n`. */
  lemma SchemaBytes(buf: seq<byte>, isConnect: bool, n: nat)
    requires n < |buf|
    ensures n < SchemaTo(buf, isConnect) ==> buf[n] != COLON
    ensures SchemaFirst(buf, isConnect) && n == SchemaTo(buf, isConnect) ==> buf[n] == COLON
    ensures n < ServerFrom(buf, isConnect) ==> SchemaFirst(buf, isConnect) && n < SchemaTo(buf, isConnect) + 3
    ensures ServerFrom(buf, isConnect) < |buf| && SchemaFirst(buf, isConnect) ==>
              ServerFrom(buf, isConnect) == SchemaTo(buf, isConnect) + 3
  {
  }

  lemma ServerBytes(buf: seq<byte>, isConnect: bool, n: nat)
    requires n < |buf|
    ensures ServerFrom(buf, isConnect) <= n < ServerTo(buf, isConnect) ==> buf[n] != SLASH && buf[n] != QUESTION
    ensures n == ServerTo(buf, isConnect) && !PathFirst(buf, isConnect) ==> buf[n] == SLASH || buf[n] == QUESTION
    ensures PathFirst(buf, isConnect) ==> ServerFrom(buf, isConnect) == ServerTo(buf, isConnect) == 0
    ensures !SchemaFirst(buf, isConnect) ==> ServerFrom(buf, isConnect) == 0
  {
  }

  lemma PathBytes(buf: seq<byte>, isConnect: bool, n: nat)
    requires n < |buf|
    ensures ServerTo(buf, isConnect) <= n < PathTo(buf, isConnect) ==> buf[n] != QUESTION && buf[n] != HASH
    ensures n == PathTo(buf, isConnect) ==> buf[n] == QUESTION || buf[n] == HASH
    ensures n == ServerTo(buf, isConnect) ==>
              (n < PathTo(buf, isConnect) <==> PathFirst(buf, isConnect) || buf[n] == SLASH)
  {
    hide ServerTo;
    if n == ServerTo(buf, isConnect) && PathFirst(buf, isConnect) {
      assert n == 0 by {
        ServerBytes(buf, isConnect, n);
      }
    }
  }

  lemma QueryBytes(buf: seq<byte>, isConnect: bool, n: nat)
    requires n < |buf|
    ensures PathTo(buf, isConnect) < n < QueryTo(buf, isConnect) ==> buf[n] != HASH
    ensures n == QueryTo(buf, isConnect) ==> buf[n] == HASH
    ensures n == PathTo(buf, isConnect) ==> (n < QueryTo(buf, isConnect) <==> buf[n] == QUESTION)
    ensures QueryTo(buf, isConnect) <= n < FragmentFrom(buf, isConnect) ==> buf[n] == HASH
    ensures n == FragmentFrom(buf, isConnect) ==> buf[n] != HASH
    ensures n == QueryTo(buf, isConnect) ==> n < FragmentFrom(buf, isConnect)
  {
    hide PathTo;
  }

  /** What one more byte does, wherever it stands. */
  predicate StepsOn(buf: seq<byte>, isConnect: bool, n: nat)
    requires n < |buf|
  {
    UrlChar(StateAt(buf, isConnect, n), buf[n])
    == if Legal(buf, isConnect, n) then StateAt(buf, isConnect, n + 1) else Dead
  }

  lemma SchemaStep(buf: seq<byte>, isConnect: bool, n: nat)
    requires n < ServerFrom(buf, isConnect)
    ensures StepsOn(buf, isConnect, n)
  {
    hide SchemaTo;
    hide ServerFrom;
    hide ServerTo;
    hide PathTo;
    hide QueryTo;
    hide FragmentFrom;
    hide IsAlpha;
    hide IsUserinfoChar;
    hide IsUrlChar;
    ClassesAgree(buf[n]);
    SchemaBytes(buf, isConnect, n);
  }

  lemma ServerStep(buf: seq<byte>, isConnect: bool, n: nat)
    requires ServerFrom(buf, isConnect) <= n < ServerTo(buf, isConnect)
    ensures StepsOn(buf, isConnect, n)
  {
    hide SchemaTo;
    hide ServerFrom;
    hide ServerTo;
    hide PathTo;
    hide QueryTo;
    hide FragmentFrom;
    hide IsAlpha;
    hide IsUserinfoChar;
    hide IsUrlChar;
    hide UserinfoByte;
    ClassesAgree(buf[n]);
    SchemaBytes(buf, isConnect, n);
    ServerBytes(buf, isConnect, n);
  }

  lemma PathStep(buf: seq<byte>, isConnect: bool, n: nat)
    requires ServerTo(buf, isConnect) <= n < PathTo(buf, isConnect)
    ensures StepsOn(buf, isConnect, n)
  {
    hide SchemaTo;
    hide ServerFrom;
    hide ServerTo;
    hide PathTo;
    hide QueryTo;
    hide FragmentFrom;
    hide IsAlpha;
    hide IsUserinfoChar;
    hide IsUrlChar;
    ClassesAgree(buf[n]);
    SchemaBytes(buf, isConnect, n);
    ServerBytes(buf, isConnect, n);
    PathBytes(buf, isConnect, n);
  }

  lemma QueryStep(buf: seq<byte>, isConnect: bool, n: nat)
    requires PathTo(buf, isConnect) <= n < QueryTo(buf, isConnect)
    ensures StepsOn(buf, isConnect, n)
  {
    hide SchemaTo;
    hide ServerFrom;
    hide ServerTo;
    hide PathTo;
    hide QueryTo;
    hide FragmentFrom;
    hide IsAlpha;
    hide IsUserinfoChar;
    hide IsUrlChar;
    ClassesAgree(buf[n]);
    SchemaBytes(buf, isConnect, n);
    ServerBytes(buf, isConnect, n);
    PathBytes(buf, isConnect, n);
    QueryBytes(buf, isConnect, n);
  }

  lemma FragmentStep(buf: seq<byte>, isConnect: bool, n: nat)
    requires QueryTo(buf, isConnect) <= n < |buf|
    ensures StepsOn(buf, isConnect, n)
  {
    hide SchemaTo;
    hide ServerFrom;
    hide ServerTo;
    hide PathTo;
    hide QueryTo;
    hide FragmentFrom;
    hide IsAlpha;
    hide IsUserinfoChar;
    hide IsUrlChar;
    ClassesAgree(buf[n]);
    SchemaBytes(buf, isConnect, n);
    ServerBytes(buf, isConnect, n);
    PathBytes(buf, isConnect, n);
    QueryBytes(buf, isConnect, n);
  }

  /** One more byte: its own set decides, and then the next state is the one of the position. */
  lemma UrlStep(buf: seq<byte>, isConnect: bool, n: nat)
    requires n < |buf|
    ensures StepsOn(buf, isConnect, n)
  {
    hide StepsOn;
    if n < ServerFrom(buf, isConnect) {
      SchemaStep(buf, isConnect, n);
    } else if n < ServerTo(buf, isConnect) {
      ServerStep(buf, isConnect, n);
    } else if n < PathTo(buf, isConnect) {
      PathStep(buf, isConnect, n);
    } else if n < QueryTo(buf, isConnect) {
      QueryStep(buf, isConnect, n);
    } else {
      FragmentStep(buf, isConnect, n);
    }
  }

  predicate LegalTo(buf: seq<byte>, isConnect: bool, n: nat)
    requires n <= |buf|
  {
    forall k :: 0 <= k < n ==> Legal(buf, isConnect, k)
  }

  /** The first machine: alive exactly as long as every byte is legal where it stands, and then in the state of its
      position. */
  lemma {:induction false} UrlMachine(buf: seq<byte>, isConnect: bool, n: nat)
    requires n <= |buf|
    ensures UrlAfter(UrlStart(isConnect), buf, n) == if LegalTo(buf, isConnect, n) then StateAt(buf, isConnect, n) else Dead
    decreases n
  {
    hide Legal;
    hide UrlChar;
    if n > 0 {
      UrlMachine(buf, isConnect, n - 1);
      UrlStep(buf, isConnect, n - 1);
      assert LegalTo(buf, isConnect, n) <==> LegalTo(buf, isConnect, n - 1) && Legal(buf, isConnect, n - 1);
      DeadStays(buf[n - 1]);
    }
  }

  lemma DeadStays(b: byte)
    ensures UrlChar(Dead, b) == Dead
  {
  }

  // ----- the parts of the server part [from, end) ---------------------------------------------

  function AtSign(buf: seq<byte>, from: nat, end: nat): (n: nat)
    requires from <= end <= |buf|
    ensures from <= n <= end
  {
    FirstOf(buf, from, end, {AT})
  }

  /** The host begins behind the first '@', or at once if there is none. */
  function HostFrom(buf: seq<byte>, from: nat, end: nat): (n: nat)
    requires from <= end <= |buf|
    ensures from <= n <= end
  {
    if AtSign(buf, from, end) < end then AtSign(buf, from, end) + 1 else from
  }

  predicate Bracketed(buf: seq<byte>, from: nat, end: nat)
    requires from <= end <= |buf|
  {
    HostFrom(buf, from, end) < end && buf[HostFrom(buf, from, end)] == LBRACKET
  }

  /** In brackets the address ends at the first '%' or ']'. */
  function ZoneSign(buf: seq<byte>, from: nat, end: nat): (n: nat)
    requires from <= end <= |buf| && Bracketed(buf, from, end)
    ensures HostFrom(buf, from, end) < n <= end
  {
    FirstOf(buf, HostFrom(buf, from, end) + 1, end, {PERCENT, RBRACKET})
  }

  /** A bracketed host ends at its ']', another one at the first ':'. */
  function HostTo(buf: seq<byte>, from: nat, end: nat): (n: nat)
    requires from <= end <= |buf|
    ensures HostFrom(buf, from, end) <= n <= end
    ensures Bracketed(buf, from, end) ==> ZoneSign(buf, from, end) <= n
  {
    if Bracketed(buf, from, end) then FirstOf(buf, ZoneSign(buf, from, end), end, {RBRACKET})
    else FirstOf(buf, HostFrom(buf, from, end), end, {COLON})
  }

  /** Where the ':' before the port has to be. */
  function PortSign(buf: seq<byte>, from: nat, end: nat): nat
    requires from <= end <= |buf|
  {
    if Bracketed(buf, from, end) then HostTo(buf, from, end) + 1 else HostTo(buf, from, end)
  }

  predicate HostLegal(buf: seq<byte>, from: nat, end: nat, k: nat)
    requires from <= k < end <= |buf|
  {
    if k < HostFrom(buf, from, end) then k == AtSign(buf, from, end) || UserinfoByte(buf[k])
    else if k > PortSign(buf, from, end) then IsNum(buf[k])
    else if k == PortSign(buf, from, end) then
      buf[k] == COLON && k > HostFrom(buf, from, end)
    else if !Bracketed(buf, from, end) then HostByte(buf[k])
    else if k == HostFrom(buf, from, end) then true
    else if k < ZoneSign(buf, from, end) then V6Byte(buf[k])
    else if k == ZoneSign(buf, from, end) then k > HostFrom(buf, from, end) + 1
    else if k < HostTo(buf, from, end) then ZoneByte(buf[k])
    else k > ZoneSign(buf, from, end) + 1
  }

  function HostStateAt(buf: seq<byte>, from: nat, end: nat, n: nat): HostState
    requires from <= n <= end <= |buf|
  {
    if n == from then HostBegin(AtSign(buf, from, end) < end)
    else if n < HostFrom(buf, from, end) then Userinfo
    else if n == HostFrom(buf, from, end) then HostStart
    else if n > PortSign(buf, from, end) + 1 then Port
    else if n == PortSign(buf, from, end) + 1 then PortStart
    else if !Bracketed(buf, from, end) then Host
    else if n == HostFrom(buf, from, end) + 1 then V6Start
    else if n <= ZoneSign(buf, from, end) then V6
    else if n > HostTo(buf, from, end) then V6End
    else if n == ZoneSign(buf, from, end) + 1 then V6ZoneStart
    else V6Zone
  }

  lemma HostClassesAgree(b: byte)
    ensures IsUserinfoChar(b) <==> UserinfoByte(b)
    ensures IsHostChar(b) <==> HostByte(b)
    ensures IsHex(b) || b == COLON || b == DOT <==> V6Byte(b)
    ensures IsAlpha(b) || IsNum(b) || b in {37, 46, 45, 95, 126} <==> ZoneByte(b)
    ensures UserinfoByte(b) ==> b != AT
    ensures HostByte(b) ==> b != COLON && b != LBRACKET
    ensures V6Byte(b) ==> b != PERCENT && b != RBRACKET
    ensures ZoneByte(b) ==> b != RBRACKET
  {
    LetterIsAlpha(b);
  }

  lemma HostBytes(buf: seq<byte>, from: nat, end: nat, k: nat)
    requires from <= k < end <= |buf|
    ensures k < AtSign(buf, from, end) ==> buf[k] != AT
    ensures k == AtSign(buf, from, end) ==> buf[k] == AT
    ensures AtSign(buf, from, end) < end ==> HostFrom(buf, from, end) == AtSign(buf, from, end) + 1
    ensures AtSign(buf, from, end) == end ==> HostFrom(buf, from, end) == from
    ensures k == HostFrom(buf, from, end) ==> (Bracketed(buf, from, end) <==> buf[k] == LBRACKET)
    ensures HostFrom(buf, from, end) < k ==> HostFrom(buf, from, end) < end
    ensures !Bracketed(buf, from, end) ==>
      && (HostFrom(buf, from, end) <= k < HostTo(buf, from, end) ==> buf[k] != COLON)
      && (k == HostTo(buf, from, end) ==> buf[k] == COLON)
  {
  }

  lemma BracketBytes(buf: seq<byte>, from: nat, end: nat, k: nat)
    requires from <= k < end <= |buf| && Bracketed(buf, from, end)
    ensures HostFrom(buf, from, end) < k < ZoneSign(buf, from, end) ==> buf[k] != PERCENT && buf[k] != RBRACKET
    ensures k == ZoneSign(buf, from, end) ==> buf[k] == PERCENT || buf[k] == RBRACKET
    ensures ZoneSign(buf, from, end) <= k < HostTo(buf, from, end) ==> buf[k] != RBRACKET
    ensures k == HostTo(buf, from, end) ==> buf[k] == RBRACKET
  {
  }

  predicate HostStepsOn(buf: seq<byte>, from: nat, end: nat, k: nat)
    requires from <= k < end <= |buf|
  {
    HostChar(HostStateAt(buf, from, end, k), buf[k])
    == if HostLegal(buf, from, end, k) then HostStateAt(buf, from, end, k + 1) else HostDead
  }

  lemma UserinfoStep(buf: seq<byte>, from: nat, end: nat, k: nat)
    requires from <= k < end <= |buf| && k < HostFrom(buf, from, end)
    ensures HostStepsOn(buf, from, end, k)
  {
    hide IsUserinfoChar;
    hide UserinfoByte;
    hide AtSign;
    hide HostFrom;
    hide HostTo;
    hide ZoneSign;
    HostClassesAgree(buf[k]);
    HostBytes(buf, from, end, k);
  }

  lemma PlainStep(buf: seq<byte>, from: nat, end: nat, k: nat)
    requires from <= k < end <= |buf| && HostFrom(buf, from, end) <= k && !Bracketed(buf, from, end)
    ensures HostStepsOn(buf, from, end, k)
  {
    hide IsHostChar;
    hide HostByte;
    hide IsHex;
    hide V6Byte;
    hide AtSign;
    hide HostFrom;
    hide HostTo;
    hide Bracketed;
    hide ZoneSign;
    HostClassesAgree(buf[k]);
    HostBytes(buf, from, end, k);
  }

  lemma BracketStep(buf: seq<byte>, from: nat, end: nat, k: nat)
    requires from <= k < end <= |buf| && HostFrom(buf, from, end) <= k && Bracketed(buf, from, end)
    ensures HostStepsOn(buf, from, end, k)
  {
    hide IsHostChar;
    hide HostByte;
    hide IsHex;
    hide V6Byte;
    hide ZoneByte;
    hide IsAlpha;
    hide AtSign;
    hide HostFrom;
    hide HostTo;
    hide ZoneSign;
    hide Bracketed;
    HostClassesAgree(buf[k]);
    HostBytes(buf, from, end, k);
    BracketBytes(buf, from, end, k);
  }

  lemma HostStepAt(buf: seq<byte>, from: nat, end: nat, k: nat)
    requires from <= k < end <= |buf|
    ensures HostStepsOn(buf, from, end, k)
  {
    hide HostStepsOn;
    if k < HostFrom(buf, from, end) {
      UserinfoStep(buf, from, end, k);
    } else if Bracketed(buf, from, end) {
      BracketStep(buf, from, end, k);
    } else {
      PlainStep(buf, from, end, k);
    }
  }

  predicate HostLegalTo(buf: seq<byte>, from: nat, end: nat, n: nat)
    requires from <= n <= end <= |buf|
  {
    forall k :: from <= k < n ==> HostLegal(buf, from, end, k)
  }

  /** The second machine, likewise. */
  lemma {:induction false} HostMachine(buf: seq<byte>, from: nat, end: nat, n: nat)
    requires from <= n <= end <= |buf|
    ensures HostAfter(HostBegin(AtSign(buf, from, end) < end), buf, from, n)
            == if HostLegalTo(buf, from, end, n) then HostStateAt(buf, from, end, n) else HostDead
    decreases n
  {
    hide HostLegal;
    hide HostChar;
    hide AtSign;
    if n > from {
      HostMachine(buf, from, end, n - 1);
      HostStepAt(buf, from, end, n - 1);
      assert HostLegalTo(buf, from, end, n)
        <==> HostLegalTo(buf, from, end, n - 1) && HostLegal(buf, from, end, n - 1);
      HostDeadStays(buf[n - 1]);
    }
  }

  lemma HostDeadStays(b: byte)
    ensures HostChar(HostDead, b) == HostDead
  {
  }

  /** A server part both its own machine and the end check accept. */
  predicate ServerOk(buf: seq<byte>, from: nat, end: nat)
    requires from <= end <= |buf|
  {
    && HostLegalTo(buf, from, end, end) && HostFrom(buf, from, end) < end
    && (Bracketed(buf, from, end) ==> HostTo(buf, from, end) < end)
    && PortSign(buf, from, end) + 1 != end
  }

  predicate HostEnd(s: HostState) {
    s == Host || s == V6End || s == Port
  }

  lemma ServerAccepted(buf: seq<byte>, from: nat, end: nat)
    requires from <= end <= |buf|
    ensures HostEnd(HostAfter(HostBegin(AtSign(buf, from, end) < end), buf, from, end)) <==> ServerOk(buf, from, end)
  {
    HostMachine(buf, from, end, end);
  }

  // ----- the components -----------------------------------------------------------------------

  /** Where a component lies; an absent one has length 0. */
  function Where(buf: seq<byte>, isConnect: bool, f: Field): Range {
    var from, end := ServerFrom(buf, isConnect), ServerTo(buf, isConnect);
    match f
    case SCHEMA => Range(0, SchemaTo(buf, isConnect))
    case USERINFO => Range(from, if AtSign(buf, from, end) < end then AtSign(buf, from, end) - from else 0)
    case HOST =>
      if Bracketed(buf, from, end) then Range(HostFrom(buf, from, end) + 1, HostTo(buf, from, end) - HostFrom(buf, from, end) - 1)
      else Range(HostFrom(buf, from, end), HostTo(buf, from, end) - HostFrom(buf, from, end))
    case PORT =>
      if PortSign(buf, from, end) < end then Range(PortSign(buf, from, end) + 1, end - PortSign(buf, from, end) - 1)
      else Range(end, 0)
    case PATH => Range(end, PathTo(buf, isConnect) - end)
    case QUERY =>
      var path, query := PathTo(buf, isConnect), QueryTo(buf, isConnect);
      if path < query then Range(path + 1, query - path - 1) else Range(path, 0)
    case FRAGMENT => Range(FragmentFrom(buf, isConnect), |buf| - FragmentFrom(buf, isConnect))
  }

  /** Every byte may stand where it stands, a schema is followed by a server part, and a server part by itself is one. */
  predicate UrlOk(buf: seq<byte>, isConnect: bool) {
    var from, end := ServerFrom(buf, isConnect), ServerTo(buf, isConnect);
    && LegalTo(buf, isConnect, |buf|)
    && (SchemaFirst(buf, isConnect) ==> from < end)
    && (from < end ==> ServerOk(buf, from, end))
  }

  predicate In(k: nat, r: Range) {
    r.off <= k < r.off + r.len
  }

  /** What the first machine takes a position for; the server part is a HOST there. */
  function FirstRange(buf: seq<byte>, isConnect: bool, f: Field): Range {
    if f == HOST then Range(ServerFrom(buf, isConnect), ServerTo(buf, isConnect) - ServerFrom(buf, isConnect))
    else Where(buf, isConnect, f)
  }

  predicate FirstPass(f: Field) {
    f != USERINFO && f != PORT
  }

  predicate ServerPart(f: Field) {
    f == USERINFO || f == HOST || f == PORT
  }

  lemma StateLabel(buf: seq<byte>, isConnect: bool, k: nat, f: Field)
    requires k < |buf| && FirstPass(f) && LegalTo(buf, isConnect, |buf|)
    ensures UrlLabel(StateAt(buf, isConnect, k + 1)) == Part(f) <==> In(k, FirstRange(buf, isConnect, f))
  {
    SchemaBytes(buf, isConnect, k);
    hide SchemaTo;
    hide ServerFrom;
    hide ServerTo;
    hide PathTo;
    hide QueryTo;
    hide FragmentFrom;
    hide Legal;
  }

  lemma UrlLabelAt(buf: seq<byte>, isConnect: bool, k: nat, f: Field)
    requires k < |buf| && FirstPass(f) && LegalTo(buf, isConnect, |buf|)
    ensures UrlLabels(UrlStart(isConnect), buf, |buf|)[k] == Part(f) <==> In(k, FirstRange(buf, isConnect, f))
  {
    hide Legal;
    hide UrlAfter;
    hide StateAt;
    hide FirstRange;
    assert LegalTo(buf, isConnect, k + 1);
    UrlMachine(buf, isConnect, k + 1);
    StateLabel(buf, isConnect, k, f);
  }

  lemma HostStateLabel(buf: seq<byte>, isConnect: bool, k: nat, f: Field)
    requires var (from, end) := (ServerFrom(buf, isConnect), ServerTo(buf, isConnect));
      from <= k < end && ServerOk(buf, from, end)
    requires ServerPart(f)
    ensures var (from, end) := (ServerFrom(buf, isConnect), ServerTo(buf, isConnect));
      HostLabel(HostStateAt(buf, from, end, k + 1)) == Part(f) <==> In(k, Where(buf, isConnect, f))
  {
    hide HostLegal;
    hide ServerFrom;
    hide ServerTo;
    hide AtSign;
    hide HostTo;
    hide ZoneSign;
  }

  lemma HostLabelAt(buf: seq<byte>, isConnect: bool, k: nat, f: Field)
    requires var (from, end) := (ServerFrom(buf, isConnect), ServerTo(buf, isConnect));
      from <= k < end && ServerOk(buf, from, end)
    requires ServerPart(f)
    ensures var (from, end) := (ServerFrom(buf, isConnect), ServerTo(buf, isConnect));
      HostLabels(HostBegin(AtSign(buf, from, end) < end), buf, from, end)[k - from] == Part(f)
      <==> In(k, Where(buf, isConnect, f))
  {
    var from, end := ServerFrom(buf, isConnect), ServerTo(buf, isConnect);
    hide HostLegal;
    hide HostAfter;
    hide ServerFrom;
    hide ServerTo;
    hide AtSign;
    hide HostTo;
    hide ZoneSign;
    assert HostLegalTo(buf, from, end, k + 1);
    HostMachine(buf, from, end, k + 1);
    HostBytes(buf, from, end, k);
    var s := HostBegin(AtSign(buf, from, end) < end);
    assert HostLabels(s, buf, from, end)[k - from] == HostLabel(HostAfter(s, buf, from, k + 1));
    HostStateLabel(buf, isConnect, k, f);
  }

  lemma FoundExactly(buf: seq<byte>, isConnect: bool, n: nat)
    requires n <= |buf| && LegalTo(buf, isConnect, |buf|)
    ensures UrlAfter(UrlStart(isConnect), buf, n) == ServerWithAt
            <==> ServerFrom(buf, isConnect) < n <= ServerTo(buf, isConnect) && buf[n - 1] == AT
  {
    hide Legal;
    hide UrlAfter;
    assert LegalTo(buf, isConnect, n);
    UrlMachine(buf, isConnect, n);
  }

  /** A range that is exactly the positions of a component is where the component lies. */
  lemma SamePlace(labels: Labels, base: nat, ranges: map<Field, Range>, f: Field, r: Range)
    requires Exact(labels, base, ranges, f) && Inside(base, |labels|, ranges, f) && (f in ranges ==> ranges[f].len > 0)
    requires base <= r.off && r.off + r.len <= base + |labels|
    requires forall k :: 0 <= k < |labels| ==> (labels[k] == Part(f) <==> In(base + k, r))
    ensures f in ranges <==> r.len > 0
    ensures f in ranges ==> ranges[f] == r
  {
    if f in ranges {
      var q := ranges[f];
      assert labels[q.off - base] == Part(f) && labels[q.off + q.len - 1 - base] == Part(f);
      assert In(base + (q.off - base), r) && In(base + (q.off + q.len - 1 - base), r);
    }
    if r.len > 0 {
      assert labels[r.off - base] == Part(f) && labels[r.off + r.len - 1 - base] == Part(f);
    }
  }
}
