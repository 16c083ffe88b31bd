/** The connection-URL printers: `buildConnectionUrl` of src/utils/buildConnectionUrl.ts and
    `buildTestDbUrl` of jest/helper.mjs, and what parsing their output gives back. */
module ConnectionUrl {
  import opened Options
  import opened Regex
  import opened ConnectionString

  datatype MongoOptions = MongoOptions(
    url: Option<string>,
    kind: string,
    username: Option<string>,
    password: Option<string>,
    host: Option<string>,
    port: Option<nat>,
    database: Option<string>)

  const SRV := "mongodb+srv"

  function LowerChar(c: char): char {
    if 'A' <= c <= 'Z' then c - 'A' + 'a' else c
  }

  function Lower(s: string): (r: string)
    ensures |r| == |s|
    ensures forall i :: 0 <= i < |s| ==> r[i] == LowerChar(s[i])
  {
    if s == [] then [] else [LowerChar(s[0])] + Lower(s[1..])
  }

  function Digit(n: nat): (c: char)
    requires n < 10
    ensures IsDigit(c)
  {
    '0' + (n as char)
  }

  function Decimal(n: nat): (s: string)
    ensures s != [] && AllDigits(s)
  {
    if n < 10 then [Digit(n)] else Decimal(n / 10) + [Digit(n % 10)]
  }

  function DecimalValue(s: string): nat
    requires AllDigits(s)
  {
    if s == "" then 0 else 10 * DecimalValue(s[..|s| - 1]) + (s[|s| - 1] - '0') as nat
  }

  /** The digits that a port is printed with read back as that number. */
  lemma {:induction false} DecimalReadsBack(n: nat)
    ensures DecimalValue(Decimal(n)) == n
  {
    if n < 10 {
      assert Decimal(n)[..0] == "";
    } else {
      DecimalReadsBack(n / 10);
      assert Decimal(n)[..|Decimal(n)| - 1] == Decimal(n / 10);
    }
  }

  /** They have no leading zero, so no other digits do. */
  lemma {:induction false} DecimalIsShortest(n: nat)
    ensures n > 0 ==> Decimal(n)[0] != '0'
    ensures n < 10 ==> |Decimal(n)| == 1
  {
    if n < 10 {
    } else {
      DecimalIsShortest(n / 10);
    }
  }

  /** The characters 65 to 90 become 97 to 122, one by one; all others stay. */
  lemma LowerMeans(s: string, i: nat)
    requires i < |s|
    ensures Lower(s)[i] as int == s[i] as int + if 65 <= s[i] as int <= 90 then 32 else 0
  {}

  /** `value || default` on strings. */
  function Or(value: Option<string>, default: string): string {
    if value.Some? && value.value != "" then value.value else default
  }

  predicate HasCredentials(o: MongoOptions) {
    Or(o.username, "") != "" && Or(o.password, "") != ""
  }

  function Host(o: MongoOptions): string {
    Or(o.host, "127.0.0.1")
  }

  function Port(o: MongoOptions): string {
    if o.port.Some? && o.port.value != 0 then Decimal(o.port.value) else "27017"
  }

  function HostPart(o: MongoOptions): string {
    Host(o) + if Lower(o.kind) == SRV then "" else ":" + Port(o)
  }

  function BuildUrl(o: MongoOptions): string {
    if o.url.Some? && o.url.value != "" then o.url.value
    else
      var credentials := if HasCredentials(o) then o.username.value + ":" + o.password.value + "@" else "";
      Lower(o.kind) + "://" + credentials + HostPart(o) + "/" + Or(o.database, "")
  }

  /** A template string prints a missing value as `undefined`. */
  function Printed(value: Option<string>): string {
    value.GetOr("undefined")
  }

  function BuildTestDbUrl(config: Config, dbName: string): string {
    Printed(config.dialect) + "://" + dbName + ":" + Printed(config.password) + "@"
    + (Printed(config.host) + ":" + Printed(config.port)) + "/" + dbName
  }

  // ----- Clean fields

  predicate Free(s: string, chars: set<char>) {
    forall i :: 0 <= i < |s| ==> s[i] !in chars && !IsSpace(s[i])
  }

  predicate CleanScheme(s: string) {
    s != "" && Free(s, {':', '/', '?', '#'})
  }

  predicate CleanCredential(s: string) {
    Free(s, {':', '@', '/', '?', '#'})
  }

  predicate CleanHost(s: string) {
    Free(s, {'/', '?', '#'})
  }

  predicate CleanDatabase(s: string) {
    Free(s, {'?', '#'})
  }

  // ----- Parsing a text in printed form

  predicate Occurs(s: string, i: nat, w: string) {
    i + |w| <= |s| && s[i..i + |w|] == w
  }

  lemma RunOver(cls: Class, s: string, i: nat, w: string)
    requires Occurs(s, i, w)
    requires forall j :: 0 <= j < |w| ==> In(w[j], cls)
    requires i + |w| < |s| ==> !In(s[i + |w|], cls)
    ensures RunEnd(cls, s, i) == i + |w|
  {
    forall j | i <= j < i + |w|
      ensures In(s[j], cls)
    {
      assert s[j] == s[i..i + |w|][j - i] == w[j - i];
    }
  }

  /** The text from the host on. */
  lemma ScanFromHost(s: string, i: nat, captures: Captures, host: string, database: string)
    requires i <= |s| && s[i..] == host + "/" + database
    requires CleanHost(host) && CleanDatabase(database)
    ensures ScanHost(s, i, captures) ==
            (if host != "" then captures[3 := host] else captures)[4 := database]
  {
    hide RunEnd;
    var slash := i + |host|;
    assert Occurs(s, i, host) by { assert s[i..slash] == s[i..][..|host|]; }
    assert s[slash] == s[i..][|host|] == '/';
    assert Occurs(s, slash + 1, database) by { assert s[slash + 1..] == s[i..][|host| + 1..]; }
    RunOver(HOST, s, i, host);
    RunOver(DATABASE, s, slash + 1, database);
  }

  lemma ScanFromCredentials(s: string, i: nat, captures: Captures, user: string, password: string,
                            host: string, database: string)
    requires i <= |s| && s[i..] == user + ":" + password + "@" + host + "/" + database
    requires CleanCredential(user) && CleanCredential(password) && CleanHost(host) && CleanDatabase(database)
    ensures ScanCredentials(s, i, captures) ==
            ScanHost(s, i + |user| + 1 + |password| + 1, captures[2 := user + ":" + password])
    ensures i + |user| + 1 + |password| + 1 <= |s|
    ensures s[i + |user| + 1 + |password| + 1..] == host + "/" + database
  {
    hide ScanHost;
    var w := user + ":" + password;
    var at := i + |w|;
    assert s[i..] == w + ("@" + host + "/" + database);
    assert Occurs(s, i, w) by { assert s[i..at] == s[i..][..|w|]; }
    assert s[at] == s[i..][|w|] == '@';
    assert s[at + 1..] == s[i..][|w| + 1..] == host + "/" + database;
    RunOver(CREDENTIALS, s, i, w);
  }

  lemma ScanFromScheme(s: string, scheme: string, rest: string)
    requires s == scheme + "://" + rest && CleanScheme(scheme)
    ensures Scan(s) == ScanCredentials(s, |scheme| + 3, map[1 := scheme])
    ensures s[|scheme| + 3..] == rest
  {
    assert Occurs(s, 0, scheme);
    assert s[|scheme|] == ':' && s[|scheme| + 1] == '/' && s[|scheme| + 2] == '/';
    RunOver(SCHEME, s, 0, scheme);
  }

  lemma {:induction false} SplitAtFirst(s: string, t: string, c: char)
    requires c !in s && c !in t
    ensures Split(s, c) == [s]
    ensures Split(s + [c] + t, c) == [s, t]
  {
    if s == [] {
      assert [c] + t == [] + [c] + t;
      assert ([c] + t)[1..] == t;
      SplitNone(t, c);
    } else {
      SplitAtFirst(s[1..], t, c);
      assert (s + [c] + t)[1..] == s[1..] + [c] + t;
      assert [s[0]] + s[1..] == s;
    }
  }

  lemma {:induction false} SplitNone(s: string, c: char)
    requires c !in s
    ensures Split(s, c) == [s]
  {
    if s == [] {
    } else {
      SplitNone(s[1..], c);
      assert [s[0]] + s[1..] == s;
    }
  }

  lemma NoSpaceWithCredentials(scheme: string, credentials: string, host: string, database: string)
    requires NoSpace(scheme) && NoSpace(credentials) && NoSpace(host) && NoSpace(database)
    ensures NoSpace(scheme + "://" + credentials + host + "/" + database)
  {
    assert !IsSpace(':') && !IsSpace('/') by { NotSpaces(); }
  }

  lemma NotSpaces()
    ensures !IsSpace(':') && !IsSpace('/') && !IsSpace('@') && NoSpace("")
  {}

  lemma FreeHasNoSpace(s: string, chars: set<char>)
    requires Free(s, chars)
    ensures NoSpace(s)
  {}

  lemma CleanPartsHaveNoSpace(scheme: string, host: string, database: string)
    requires CleanScheme(scheme) && CleanHost(host) && CleanDatabase(database)
    ensures NoSpace(scheme) && NoSpace(host) && NoSpace(database)
  {
    FreeHasNoSpace(scheme, {':', '/', '?', '#'});
    FreeHasNoSpace(host, {'/', '?', '#'});
    FreeHasNoSpace(database, {'?', '#'});
  }

  lemma CredentialsHaveNoSpace(user: string, password: string)
    requires CleanCredential(user) && CleanCredential(password)
    ensures NoSpace(user + ":" + password + "@")
  {
    NotSpaces();
  }

  lemma ScanPrinted(s: string, scheme: string, user: string, password: string, host: string, database: string)
    requires s == scheme + "://" + (user + ":" + password + "@" + host + "/" + database)
    requires CleanScheme(scheme) && CleanCredential(user) && CleanCredential(password)
    requires CleanHost(host) && host != "" && CleanDatabase(database)
    ensures Scan(s) == map[1 := scheme, 2 := user + ":" + password, 3 := host, 4 := database]
  {
    hide ScanHost, Scan;
    ScanFromScheme(s, scheme, user + ":" + password + "@" + host + "/" + database);
    ScanFromCredentials(s, |scheme| + 3, map[1 := scheme], user, password, host, database);
    var captures := map[1 := scheme][2 := user + ":" + password];
    ScanFromHost(s, |scheme| + 3 + |user| + 1 + |password| + 1, captures, host, database);
  }

  lemma CredentialsSplit(user: string, password: string)
    requires CleanCredential(user) && CleanCredential(password)
    ensures Split(user + ":" + password, ':') == [user, password]
  {
    SplitAtFirst(user, password, ':');
    assert user + ":" + password == user + [':'] + password;
  }

  /** A printed text with credentials parses back to the printed parts. */
  lemma ParseWithCredentials(scheme: string, user: string, password: string, host: string, database: string)
    requires CleanScheme(scheme) && CleanCredential(user) && CleanCredential(password)
    requires CleanHost(host) && host != "" && CleanDatabase(database)
    ensures Parse(scheme + "://" + (user + ":" + password + "@") + host + "/" + database) ==
            Ok(Config(Some(scheme), Some(user), Some(password),
                      Piece(SplitPort(host, 0, 0), 0), Piece(SplitPort(host, 0, 0), 1), Some(database)))
  {
    hide Scan;
    var s := scheme + "://" + (user + ":" + password + "@") + host + "/" + database;
    CleanPartsHaveNoSpace(scheme, host, database);
    CredentialsHaveNoSpace(user, password);
    NoSpaceWithCredentials(scheme, user + ":" + password + "@", host, database);
    ParseIsScan(s);
    assert s == scheme + "://" + (user + ":" + password + "@" + host + "/" + database);
    ScanPrinted(s, scheme, user, password, host, database);
    CredentialsSplit(user, password);
  }

  lemma ScanWithoutCredentials(s: string, i: nat, captures: Captures, host: string, database: string)
    requires i <= |s| && s[i..] == host + "/" + database
    requires CleanHost(host) && host != "" && ('@' in host ==> host[0] == '@')
    ensures ScanCredentials(s, i, captures) == ScanHost(s, i, captures)
  {
    assert s[i] == s[i..][0] == host[0];
    assert s[i + |host|] == s[i..][|host|] == '/';
    if host[0] != '@' {
      assert Occurs(s, i, host) by { assert s[i..i + |host|] == s[i..][..|host|]; }
      RunOver(CREDENTIALS, s, i, host);
    }
  }

  /** So does one without credentials, unless an `@` further on makes the host look like them. */
  lemma ParseWithoutCredentials(scheme: string, host: string, database: string)
    requires CleanScheme(scheme) && CleanHost(host) && host != "" && CleanDatabase(database)
    requires '@' in host ==> host[0] == '@'
    ensures Parse(scheme + "://" + host + "/" + database) ==
            Ok(Config(Some(scheme), None, None,
                      Piece(SplitPort(host, 0, 0), 0), Piece(SplitPort(host, 0, 0), 1), Some(database)))
  {
    hide Parse, Scan, ScanHost, ScanCredentials, CleanScheme, CleanHost, CleanDatabase, NoSpace;
    var s := scheme + "://" + host + "/" + database;
    var rest := host + "/" + database;
    assert s == scheme + "://" + rest;
    CleanPartsHaveNoSpace(scheme, host, database);
    NotSpaces();
    NoSpaceWithCredentials(scheme, "", host, database);
    assert scheme + "://" + "" + host + "/" + database == s;
    ParseIsScan(s);
    ScanFromScheme(s, scheme, rest);
    ScanWithoutCredentials(s, |scheme| + 3, map[1 := scheme], host, database);
    ScanFromHost(s, |scheme| + 3, map[1 := scheme], host, database);
  }

  // ----- What the parser returns is clean

  ghost predicate CleanCaptures(captures: Captures) {
    && (1 in captures ==> CleanScheme(captures[1]))
    && (2 in captures ==> Free(captures[2], {'@', '/', '?', '#'}))
    && (3 in captures ==> CleanHost(captures[3]))
    && (4 in captures ==> CleanDatabase(captures[4]))
  }

  lemma RunIsFree(chars: set<char>, s: string, i: nat)
    requires i <= |s|
    ensures Free(s[i..RunEnd(NoneOf(chars), s, i)], chars)
  {}

  lemma HostCapturesAreClean(s: string, i: nat, captures: Captures)
    requires i <= |s| && CleanCaptures(captures)
    ensures CleanCaptures(ScanHost(s, i, captures))
  {
    RunIsFree({'/', '?', '#'}, s, i);
    var end := RunEnd(HOST, s, i);
    if At(s, end, '/') { RunIsFree({'?', '#'}, s, end + 1); }
  }

  lemma CredentialCapturesAreClean(s: string, i: nat, captures: Captures)
    requires i <= |s| && CleanCaptures(captures)
    ensures CleanCaptures(ScanCredentials(s, i, captures))
  {
    hide ScanHost;
    RunIsFree({'@', '/', '?', '#'}, s, i);
    var end := RunEnd(CREDENTIALS, s, i);
    HostCapturesAreClean(s, i, captures);
    if At(s, end, '@') { HostCapturesAreClean(s, end + 1, captures[2 := s[i..end]]); }
  }

  lemma CapturesAreClean(s: string)
    ensures CleanCaptures(Scan(s))
  {
    RunIsFree({':', '/', '?', '#'}, s, 0);
    var end := RunEnd(SCHEME, s, 0);
    CredentialCapturesAreClean(s, 0, map[]);
    if end > 0 && At(s, end, ':') && At(s, end + 1, '/') && At(s, end + 2, '/') {
      assert s[0..end] == s[..end];
      CredentialCapturesAreClean(s, end + 3, map[1 := s[..end]]);
    }
  }

  lemma {:induction false} SplitPieces(s: string, c: char, chars: set<char>)
    requires Free(s, chars)
    ensures forall piece :: piece in Split(s, c) ==> Free(piece, chars + {c})
  {
    if s == [] {
    } else {
      var rest := Split(s[1..], c);
      SplitPieces(s[1..], c, chars);
      assert rest[0] in rest;
      forall piece | piece in Split(s, c)
        ensures Free(piece, chars + {c})
      {
        assert piece in rest || piece == [] || piece == [s[0]] + rest[0];
      }
    }
  }

  lemma CredentialPiecesAreClean(credentials: string)
    requires Free(credentials, {'@', '/', '?', '#'})
    ensures forall i :: 0 <= i < |Split(credentials, ':')| ==> CleanCredential(Split(credentials, ':')[i])
  {
    SplitPieces(credentials, ':', {'@', '/', '?', '#'});
    assert {'@', '/', '?', '#'} + {':'} == {':', '@', '/', '?', '#'};
  }

  lemma HostPiecesAreClean(host: string)
    requires CleanHost(host)
    ensures var pieces := SplitPort(host, 0, 0);
            && CleanHost(pieces[0])
            && (|pieces| > 1 ==> pieces[1] != "" && AllDigits(pieces[1]))
            && (|pieces| == 1 ==> !EndsInPort(pieces[0]))
  {
    HostSplitsOnce(host);
  }

  /** What the parser returns is free of the delimiters; its port is made of digits, and without a port
      its host does not end like one. */
  lemma ParsedIsClean(s: string)
    requires NoSpace(s)
    ensures var c := Configured(Scan(s));
            && (c.dialect.Some? ==> CleanScheme(c.dialect.value))
            && (c.username.Some? ==> CleanCredential(c.username.value))
            && (c.password.Some? ==> CleanCredential(c.password.value))
            && (c.host.Some? ==> CleanHost(c.host.value))
            && (c.port.Some? ==> c.host.Some? && c.port.value != "" && AllDigits(c.port.value))
            && (c.host.Some? && c.port.None? ==> !EndsInPort(c.host.value))
            && (c.database.Some? ==> CleanDatabase(c.database.value))
  {
    CapturesAreClean(s);
    var captures := Scan(s);
    if 2 in captures { CredentialPiecesAreClean(captures[2]); }
    if 3 in captures { HostPiecesAreClean(captures[3]); }
  }

  // ----- buildConnectionUrl and parse

  function Expected(o: MongoOptions): Config {
    var signsIn := o.username.GetOr("") != "" && o.password.GetOr("") != "";
    Config(
      Some(Lower(o.kind)),
      if signsIn then o.username else None,
      if signsIn then o.password else None,
      Some(if o.host.GetOr("") == "" then "127.0.0.1" else o.host.value),
      if Lower(o.kind) == "mongodb+srv" then None
      else Some(if o.port.GetOr(0) == 0 then "27017" else Decimal(o.port.value)),
      Some(o.database.GetOr("")))
  }

  /** No field holds a delimiter that would end it early. */
  predicate Clean(o: MongoOptions) {
    && CleanScheme(Lower(o.kind))
    && (if HasCredentials(o) then CleanCredential(o.username.value) && CleanCredential(o.password.value)
        else '@' in Host(o) ==> Host(o)[0] == '@')
    && CleanHost(Host(o))
    && (Lower(o.kind) == SRV ==> !EndsInPort(Host(o)))
    && CleanDatabase(Or(o.database, ""))
  }

  lemma PortIsDigits(o: MongoOptions)
    ensures Port(o) != "" && AllDigits(Port(o))
  {}

  lemma HostAndPort(host: string, port: string)
    requires port != "" && AllDigits(port)
    ensures SplitPort(host + ":" + port, 0, 0) == [host, port]
  {
    var s := host + ":" + port;
    assert s[|host| + 1..] == port && s[..|host|] == host;
    assert IsPortColon(s, |host|);
    SplitPortAtColon(s, 0, 0, |host|);
  }

  lemma HostPartSplits(o: MongoOptions)
    requires Lower(o.kind) == SRV ==> !EndsInPort(Host(o))
    ensures SplitPort(HostPart(o), 0, 0) == if Lower(o.kind) == SRV then [Host(o)] else [Host(o), Port(o)]
  {
    PortIsDigits(o);
    if Lower(o.kind) == SRV {
      assert HostPart(o) == Host(o);
      SplitPortWithoutColon(Host(o), 0, 0);
    } else {
      HostAndPort(Host(o), Port(o));
      assert Host(o) + (":" + Port(o)) == Host(o) + ":" + Port(o);
    }
  }

  lemma HostPartIsClean(o: MongoOptions)
    requires CleanHost(Host(o))
    ensures CleanHost(HostPart(o)) && HostPart(o) != ""
    ensures '@' in HostPart(o) ==> '@' in Host(o)
    ensures HostPart(o)[0] == '@' <==> Host(o)[0] == '@'
  {
    PortIsDigits(o);
  }

  lemma ExpectedParts(o: MongoOptions)
    ensures Expected(o) == Config(
              Some(Lower(o.kind)),
              if HasCredentials(o) then o.username else None,
              if HasCredentials(o) then o.password else None,
              Some(Host(o)), if Lower(o.kind) == SRV then None else Some(Port(o)), Some(Or(o.database, "")))
  {
  }

  lemma CleanRoundTrip(o: MongoOptions)
    requires Or(o.url, "") == "" && Clean(o)
    ensures Parse(BuildUrl(o)) == Ok(Expected(o))
  {
    ExpectedParts(o);
    HostPartIsClean(o);
    HostPartSplits(o);
    var database := Or(o.database, "");
    if HasCredentials(o) {
      ParseWithCredentials(Lower(o.kind), o.username.value, o.password.value, HostPart(o), database);
    } else {
      ParseWithoutCredentials(Lower(o.kind), HostPart(o), database);
      assert Lower(o.kind) + "://" + "" == Lower(o.kind) + "://";
    }
  }

  lemma HostKeepsCredentials(s: string, i: nat, captures: Captures)
    requires i <= |s| && 2 in captures
    ensures 2 in ScanHost(s, i, captures)
  {}

  function FirstAt(s: string): (k: nat)
    requires '@' in s
    ensures k < |s| && s[k] == '@' && '@' !in s[..k]
  {
    if s[0] == '@' then 0 else
      assert s == [s[0]] + s[1..];
      var k := 1 + FirstAt(s[1..]);
      assert s[..k] == [s[0]] + s[1..][..k - 1];
      k
  }

  /** The scan takes what precedes an `@` for credentials. */
  lemma ScanUpToAt(s: string, i: nat, captures: Captures, w: string)
    requires Occurs(s, i, w) && w != "" && At(s, i + |w|, '@')
    requires forall j :: 0 <= j < |w| ==> In(w[j], CREDENTIALS)
    ensures 2 in ScanCredentials(s, i, captures)
  {
    hide RunEnd, ScanHost;
    RunOver(CREDENTIALS, s, i, w);
    HostKeepsCredentials(s, i + |w| + 1, captures[2 := s[i..i + |w|]]);
  }

  lemma BeforeAtIsCredentials(host: string)
    requires CleanHost(host) && '@' in host
    ensures forall j :: 0 <= j < FirstAt(host) ==> In(host[..FirstAt(host)][j], CREDENTIALS)
  {
    var w := host[..FirstAt(host)];
    forall j | 0 <= j < |w|
      ensures In(w[j], CREDENTIALS)
    {
      assert w[j] == host[j] && w[j] in w;
    }
  }

  /** An `@` inside the host of a text without credentials is taken for the end of credentials. */
  lemma StrayAtIsTaken(s: string, scheme: string, host: string, rest: string)
    requires s == scheme + "://" + host + rest && CleanScheme(scheme) && CleanHost(host)
    requires '@' in host && host[0] != '@'
    ensures 2 in Scan(s)
  {
    hide Scan, ScanCredentials, CleanScheme, CleanHost, In;
    var i, k := |scheme| + 3, FirstAt(host);
    assert s == scheme + "://" + (host + rest);
    ScanFromScheme(s, scheme, host + rest);
    BeforeAtIsCredentials(host);
    assert s[i..] == host + rest;
    assert Occurs(s, i, host[..k]) by { assert s[i..i + k] == s[i..][..k]; }
    assert s[i + k] == s[i..][k] == '@';
    ScanUpToAt(s, i, map[1 := scheme], host[..k]);
  }

  lemma RoundTripIsClean(o: MongoOptions)
    requires Or(o.url, "") == "" && Parse(BuildUrl(o)) == Ok(Expected(o))
    ensures Clean(o)
  {
    hide Scan, Lower, Port, EndsInPort, CleanScheme, CleanCredential;
    var s := BuildUrl(o);
    MatchIsScan(s);
    ParsedIsClean(s);
    var c := Configured(Scan(s));
    ExpectedParts(o);
    if !HasCredentials(o) && '@' in Host(o) && Host(o)[0] != '@' {
      var rest := (if Lower(o.kind) == SRV then "" else ":" + Port(o)) + "/" + Or(o.database, "");
      assert s == Lower(o.kind) + "://" + Host(o) + rest;
      StrayAtIsTaken(s, Lower(o.kind), Host(o), rest);
      assert false;
    }
  }

  /** Printing options and parsing the text gives the options back, defaults filled in, exactly when no
      field holds a delimiter that would end it early. */
  lemma RoundTripExactly(o: MongoOptions)
    requires Or(o.url, "") == ""
    ensures Parse(BuildUrl(o)) == Ok(Expected(o)) <==> Clean(o)
  {
    if Clean(o) {
      CleanRoundTrip(o);
    } else if Parse(BuildUrl(o)) == Ok(Expected(o)) {
      RoundTripIsClean(o);
    }
  }

  /** A given URL is returned as it is, whatever the other options; an empty one counts as none. */
  lemma GivenUrlIsReturned(o: MongoOptions)
    ensures o.url.GetOr("") != "" ==> BuildUrl(o) == o.url.value
    ensures o.url.GetOr("") == "" ==> BuildUrl(o) == BuildUrl(o.(url := None))
  {}

  // ----- buildTestDbUrl and parse

  lemma NoPortInUndefined(host: string)
    ensures SplitPort(host + ":" + "undefined", 0, 0) == [host + ":" + "undefined"]
  {
    var s := host + ":" + "undefined";
    forall k | 0 <= k < |s|
      ensures !IsPortColon(s, k)
    {
      assert s[|s| - 1] == 'd';
      if k + 1 < |s| { assert s[k + 1..][|s| - k - 2] == 'd'; }
    }
    SplitPortWithoutColon(s, 0, 0);
  }

  /** What is missing in a URL is printed as a word. */
  lemma MissingIsPrinted(config: Config, dbName: string)
    requires config.dialect.None? && config.password.None? && config.host.None? && config.port.None?
    ensures BuildTestDbUrl(config, dbName) == "undefined://" + dbName + ":undefined@undefined:undefined/" + dbName
  {
    assert "undefined" + "://" == "undefined://" && "undefined" + ":" + "undefined" == "undefined:undefined";
    var w := "undefined://" + dbName;
    assert w + ":" + "undefined" + "@" + "undefined:undefined" + "/" + dbName
        == w + ":undefined@undefined:undefined/" + dbName;
  }

  lemma CredentialIsDatabase(name: string)
    requires CleanCredential(name)
    ensures CleanDatabase(name)
  {}

  lemma UndefinedIsClean()
    ensures CleanScheme("undefined") && CleanCredential("undefined") && CleanHost("undefined")
  {}

  lemma DigitsAreClean(port: string)
    requires AllDigits(port)
    ensures CleanHost(port)
  {}

  lemma CleanHostAppends(host: string, port: string)
    requires CleanHost(host) && CleanHost(port)
    ensures CleanHost(host + ":" + port)
  {
    NotSpaces();
  }

  lemma PrintedIsClean(config: Config)
    requires config.dialect.Some? ==> CleanScheme(config.dialect.value)
    requires config.password.Some? ==> CleanCredential(config.password.value)
    requires config.host.Some? ==> CleanHost(config.host.value)
    requires config.port.Some? ==> AllDigits(config.port.value)
    ensures CleanScheme(Printed(config.dialect)) && CleanCredential(Printed(config.password))
    ensures CleanHost(Printed(config.host) + ":" + Printed(config.port))
  {
    UndefinedIsClean();
    if config.port.Some? { DigitsAreClean(config.port.value); }
    CleanHostAppends(Printed(config.host), Printed(config.port));
  }

  lemma TestUrlParses(config: Config, dbName: string)
    requires config.dialect.Some? ==> CleanScheme(config.dialect.value)
    requires config.password.Some? ==> CleanCredential(config.password.value)
    requires config.host.Some? ==> CleanHost(config.host.value)
    requires config.port.Some? ==> config.port.value != "" && AllDigits(config.port.value)
    requires CleanCredential(dbName)
    ensures var host := Printed(config.host) + ":" + Printed(config.port);
            Parse(BuildTestDbUrl(config, dbName)) ==
            Ok(Config(Some(Printed(config.dialect)), Some(dbName), Some(Printed(config.password)),
                      Piece(SplitPort(host, 0, 0), 0), Piece(SplitPort(host, 0, 0), 1), Some(dbName)))
  {
    hide CleanScheme, CleanCredential, CleanDatabase;
    PrintedIsClean(config);
    CredentialIsDatabase(dbName);
    var scheme, password := Printed(config.dialect), Printed(config.password);
    var host := Printed(config.host) + ":" + Printed(config.port);
    ParseWithCredentials(scheme, dbName, password, host, dbName);
    assert scheme + "://" + (dbName + ":" + password + "@") + host + "/" + dbName
        == scheme + "://" + dbName + ":" + password + "@" + host + "/" + dbName;
  }

  /** What the helper means to keep: everything but the user and the database, which it names anew. */
  function Rebased(config: Config, dbName: string): Config {
    Config(config.dialect, Some(dbName), config.password, config.host, config.port, Some(dbName))
  }

  /** Rebasing a parsed URL onto a test database keeps dialect, password, host and port exactly when the
      URL had all four and the new name holds no delimiter: a missing part is printed as a word. */
  lemma RebaseExactly(dbUrl: string, dbName: string)
    requires Parse(dbUrl).Ok?
    ensures var c := Parse(dbUrl).config;
            Parse(BuildTestDbUrl(c, dbName)) == Ok(Rebased(c, dbName)) <==>
            c.dialect.Some? && c.password.Some? && c.host.Some? && c.port.Some? && CleanCredential(dbName)
  {
    var c := Parse(dbUrl).config;
    MatchIsScan(dbUrl);
    ParsedIsClean(dbUrl);
    var text := BuildTestDbUrl(c, dbName);
    if CleanCredential(dbName) {
      TestUrlParses(c, dbName);
      if c.host.Some? && c.port.Some? {
        HostAndPort(c.host.value, c.port.value);
      } else if c.host.Some? {
        NoPortInUndefined(c.host.value);
      }
    } else if Parse(text) == Ok(Rebased(c, dbName)) {
      MatchIsScan(text);
      ParsedIsClean(text);
      assert false;
    }
  }
}
