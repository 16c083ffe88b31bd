/** The connection-string parser of src/utils/parseConnectionString.ts, which jest/helper.mjs repeats. */
module ConnectionString {
  import opened Options
  import opened Regex

  datatype Config = Config(
    dialect: Option<string>,
    username: Option<string>,
    password: Option<string>,
    host: Option<string>,
    port: Option<string>,
    database: Option<string>)

  datatype Result = Ok(config: Config) | Error(message: string)

  const SCHEME := NoneOf({':', '/', '?', '#'})
  const CREDENTIALS := NoneOf({'@', '/', '?', '#'})
  const HOST := NoneOf({'/', '?', '#'})
  const DATABASE := NoneOf({'?', '#'})
  const QUERY := NoneOf({'#'})
  const ANY := NoneOf({})

  // ----- The pattern, from its tail to its head

  const TAIL: seq<Node> := [Run(ANY, 0), End]
  const QUERY_PART: seq<Node> := [One(Only('?')), Capture(5, [Run(QUERY, 1)])]
  const FROM_QUERY: seq<Node> := [Maybe(QUERY_PART)] + TAIL
  const DATABASE_PART: seq<Node> := [One(Only('/')), Capture(4, [Run(DATABASE, 0)])]
  const FROM_DATABASE: seq<Node> := [Maybe(DATABASE_PART)] + FROM_QUERY
  const HOST_PART: seq<Node> := [Capture(3, [Run(HOST, 1)])]
  const FROM_HOST: seq<Node> := [Maybe(HOST_PART)] + FROM_DATABASE
  const CREDENTIALS_PART: seq<Node> := [Capture(2, [Run(CREDENTIALS, 1)]), One(Only('@'))]
  const FROM_CREDENTIALS: seq<Node> := [Maybe(CREDENTIALS_PART)] + FROM_HOST
  const SCHEME_PART: seq<Node> :=
    [Capture(1, [Run(SCHEME, 1)]), One(Only(':')), One(Only('/')), One(Only('/'))]
  const MATCHER: seq<Node> := [Maybe(SCHEME_PART)] + FROM_CREDENTIALS

  // ----- The same language by one greedy scan from left to right

  predicate At(s: string, i: nat, c: char) {
    i < |s| && s[i] == c
  }

  function ScanQuery(s: string, i: nat, captures: Captures): Captures
    requires i <= |s|
  {
    if At(s, i, '?') && RunEnd(QUERY, s, i + 1) > i + 1
    then captures[5 := s[i + 1..RunEnd(QUERY, s, i + 1)]]
    else captures
  }

  function ScanDatabase(s: string, i: nat, captures: Captures): Captures
    requires i <= |s|
  {
    if At(s, i, '/') then
      var end := RunEnd(DATABASE, s, i + 1);
      ScanQuery(s, end, captures[4 := s[i + 1..end]])
    else ScanQuery(s, i, captures)
  }

  function ScanHost(s: string, i: nat, captures: Captures): Captures
    requires i <= |s|
  {
    var end := RunEnd(HOST, s, i);
    ScanDatabase(s, end, if end > i then captures[3 := s[i..end]] else captures)
  }

  function ScanCredentials(s: string, i: nat, captures: Captures): Captures
    requires i <= |s|
  {
    var end := RunEnd(CREDENTIALS, s, i);
    if end > i && At(s, end, '@') then ScanHost(s, end + 1, captures[2 := s[i..end]])
    else ScanHost(s, i, captures)
  }

  function Scan(s: string): Captures {
    var end := RunEnd(SCHEME, s, 0);
    if end > 0 && At(s, end, ':') && At(s, end + 1, '/') && At(s, end + 2, '/')
    then ScanCredentials(s, end + 3, map[1 := s[..end]])
    else ScanCredentials(s, 0, map[])
  }

  // ----- The matcher agrees with the scan

  lemma TailMatches(s: string, i: nat, captures: Captures)
    requires i <= |s| && NoSpace(s)
    ensures Match(TAIL, s, i, captures) == Some(captures)
  {
    assert TAIL == [Run(ANY, 0)] + [End];
    var end := RunEnd(ANY, s, i);
    assert end == |s|;
    assert [End][1..] == [];
    assert Match([End], s, end, captures) == Some(captures);
    RunIsGreedy(ANY, 0, [End], s, i, captures);
  }

  /** A group around one run, followed by a pattern that either matches after the whole run or after no
      shorter one. */
  lemma CapturedRun(group: nat, cls: Class, min: nat, rest: seq<Node>, s: string, i: nat, captures: Captures)
    requires i <= |s|
    requires var end := RunEnd(cls, s, i);
             Match(rest, s, end, captures[group := s[i..end]]).Some?
             || forall j :: i + min <= j < end ==> Match(rest, s, j, captures[group := s[i..j]]).None?
    ensures var end := RunEnd(cls, s, i);
            Match([Capture(group, [Run(cls, min)])] + rest, s, i, captures) ==
            if i + min <= end then Match(rest, s, end, captures[group := s[i..end]]) else None
  {
    var close := [Close(group, i)] + rest;
    var end := RunEnd(cls, s, i);
    forall j | i <= j <= |s|
      ensures Match(close, s, j, captures) == Match(rest, s, j, captures[group := s[i..j]])
    {
      assert close[1..] == rest;
    }
    RunIsGreedy(cls, min, close, s, i, captures);
    var pattern := [Capture(group, [Run(cls, min)])] + rest;
    assert pattern[1..] == rest;
    assert Match(pattern, s, i, captures) == Match([Run(cls, min)] + close, s, i, captures);
  }

  lemma MaybeMatches(body: seq<Node>, rest: seq<Node>, s: string, i: nat, captures: Captures)
    requires i <= |s|
    ensures var taken := Match(body + rest, s, i, captures);
            Match([Maybe(body)] + rest, s, i, captures) ==
            if taken.Some? then taken else Match(rest, s, i, captures)
  {
    assert ([Maybe(body)] + rest)[1..] == rest;
  }

  lemma OneMatches(c: char, rest: seq<Node>, s: string, i: nat, captures: Captures)
    requires i <= |s|
    ensures Match([One(Only(c))] + rest, s, i, captures) ==
            if At(s, i, c) then Match(rest, s, i + 1, captures) else None
  {
    assert ([One(Only(c))] + rest)[1..] == rest;
  }

  lemma QueryMatches(s: string, i: nat, captures: Captures)
    requires i <= |s| && NoSpace(s)
    ensures Match(FROM_QUERY, s, i, captures) == Some(ScanQuery(s, i, captures))
  {
    MaybeMatches(QUERY_PART, TAIL, s, i, captures);
    TailMatches(s, i, captures);
    var group := [Capture(5, [Run(QUERY, 1)])] + TAIL;
    assert QUERY_PART + TAIL == [One(Only('?'))] + group;
    OneMatches('?', group, s, i, captures);
    if At(s, i, '?') {
      var end := RunEnd(QUERY, s, i + 1);
      TailMatches(s, end, captures[5 := s[i + 1..end]]);
      CapturedRun(5, QUERY, 1, TAIL, s, i + 1, captures);
    }
  }

  lemma DatabaseMatches(s: string, i: nat, captures: Captures)
    requires i <= |s| && NoSpace(s)
    ensures Match(FROM_DATABASE, s, i, captures) == Some(ScanDatabase(s, i, captures))
  {
    MaybeMatches(DATABASE_PART, FROM_QUERY, s, i, captures);
    QueryMatches(s, i, captures);
    var group := [Capture(4, [Run(DATABASE, 0)])] + FROM_QUERY;
    assert DATABASE_PART + FROM_QUERY == [One(Only('/'))] + group;
    OneMatches('/', group, s, i, captures);
    if At(s, i, '/') {
      var end := RunEnd(DATABASE, s, i + 1);
      QueryMatches(s, end, captures[4 := s[i + 1..end]]);
      CapturedRun(4, DATABASE, 0, FROM_QUERY, s, i + 1, captures);
    }
  }

  lemma HostMatches(s: string, i: nat, captures: Captures)
    requires i <= |s| && NoSpace(s)
    ensures Match(FROM_HOST, s, i, captures) == Some(ScanHost(s, i, captures))
  {
    MaybeMatches(HOST_PART, FROM_DATABASE, s, i, captures);
    DatabaseMatches(s, i, captures);
    var end := RunEnd(HOST, s, i);
    DatabaseMatches(s, end, captures[3 := s[i..end]]);
    CapturedRun(3, HOST, 1, FROM_DATABASE, s, i, captures);
  }

  lemma CredentialsMatch(s: string, i: nat, captures: Captures)
    requires i <= |s| && NoSpace(s)
    ensures Match(FROM_CREDENTIALS, s, i, captures) == Some(ScanCredentials(s, i, captures))
  {
    hide Match, ScanHost;
    MaybeMatches(CREDENTIALS_PART, FROM_HOST, s, i, captures);
    HostMatches(s, i, captures);
    var end := RunEnd(CREDENTIALS, s, i);
    var at := [One(Only('@'))] + FROM_HOST;
    assert CREDENTIALS_PART + FROM_HOST == [Capture(2, [Run(CREDENTIALS, 1)])] + at;
    forall j | i <= j <= end
      ensures Match(at, s, j, captures[2 := s[i..j]]) ==
              if At(s, j, '@') then Match(FROM_HOST, s, j + 1, captures[2 := s[i..j]]) else None
    {
      OneMatches('@', FROM_HOST, s, j, captures[2 := s[i..j]]);
    }
    if At(s, end, '@') {
      HostMatches(s, end + 1, captures[2 := s[i..end]]);
    }
    CapturedRun(2, CREDENTIALS, 1, at, s, i, captures);
  }

  lemma SchemeMatches(s: string)
    requires NoSpace(s)
    ensures Match(MATCHER, s, 0, map[]) == Some(Scan(s))
  {
    hide Match, ScanCredentials;
    MaybeMatches(SCHEME_PART, FROM_CREDENTIALS, s, 0, map[]);
    CredentialsMatch(s, 0, map[]);
    var end := RunEnd(SCHEME, s, 0);
    var slash := [One(Only('/'))] + FROM_CREDENTIALS;
    var slashes := [One(Only('/'))] + slash;
    var colon := [One(Only(':'))] + slashes;
    assert SCHEME_PART + FROM_CREDENTIALS == [Capture(1, [Run(SCHEME, 1)])] + colon;
    forall j | 0 <= j <= end
      ensures Match(colon, s, j, map[1 := s[0..j]]) ==
              if At(s, j, ':') && At(s, j + 1, '/') && At(s, j + 2, '/')
              then Match(FROM_CREDENTIALS, s, j + 3, map[1 := s[0..j]]) else None
    {
      OneMatches(':', slashes, s, j, map[1 := s[0..j]]);
      if At(s, j, ':') { OneMatches('/', slash, s, j + 1, map[1 := s[0..j]]); }
      if At(s, j, ':') && At(s, j + 1, '/') { OneMatches('/', FROM_CREDENTIALS, s, j + 2, map[1 := s[0..j]]); }
    }
    if At(s, end, ':') && At(s, end + 1, '/') && At(s, end + 2, '/') {
      CredentialsMatch(s, end + 3, map[1 := s[0..end]]);
    }
    CapturedRun(1, SCHEME, 1, colon, s, 0, map[]);
  }

  lemma MatcherSkipsSpace()
    ensures SkipsSpace(MATCHER) && MATCHER[|MATCHER| - 1] == End
  {
    assert SkipsSpace([Run(QUERY, 1)]) && SkipsSpace([Run(DATABASE, 0)]) && SkipsSpace([Run(HOST, 1)])
           && SkipsSpace([Run(CREDENTIALS, 1)]) && SkipsSpace([Run(SCHEME, 1)]);
    assert SkipsSpace(QUERY_PART) && SkipsSpace(DATABASE_PART) && SkipsSpace(HOST_PART)
           && SkipsSpace(CREDENTIALS_PART) && SkipsSpace(SCHEME_PART);
  }

  /** The expression matches exactly the strings without white space, and then its backtracking search
      ends with what one greedy scan captures. */
  lemma MatchIsScan(s: string)
    ensures Match(MATCHER, s, 0, map[]) == if NoSpace(s) then Some(Scan(s)) else None
  {
    assert s[0..] == s;
    if NoSpace(s) {
      SchemeMatches(s);
    } else if Match(MATCHER, s, 0, map[]).Some? {
      MatcherSkipsSpace();
      MatchTakesNoSpace(MATCHER, s, 0, map[]);
    }
  }

  // ----- Splitting the captured parts

  function Split(s: string, c: char): (pieces: seq<string>)
    ensures pieces != []
  {
    if s == [] then [[]]
    else
      var rest := Split(s[1..], c);
      if s[0] == c then [[]] + rest else [[s[0]] + rest[0]] + rest[1..]
  }

  predicate IsDigit(c: char) {
    '0' <= c <= '9'
  }

  predicate AllDigits(s: string) {
    forall i :: 0 <= i < |s| ==> IsDigit(s[i])
  }

  /** `:(?=\d+$)` matches at q. */
  predicate IsPortColon(s: string, q: nat) {
    q + 1 < |s| && s[q] == ':' && AllDigits(s[q + 1..])
  }

  /** `split` with that expression: the pieces from p on, looking for the next separator from q on. */
  function SplitPort(s: string, p: nat, q: nat): (pieces: seq<string>)
    requires p <= q <= |s|
    ensures pieces != []
    decreases |s| - q
  {
    if q == |s| then [s[p..]]
    else if IsPortColon(s, q) then [s[p..q]] + SplitPort(s, q + 1, q + 1)
    else SplitPort(s, p, q + 1)
  }

  function Piece(pieces: seq<string>, i: nat): Option<string> {
    if i < |pieces| then Some(pieces[i]) else None
  }

  function Captured(captures: Captures, group: nat): Option<string> {
    if group in captures then Some(captures[group]) else None
  }

  function Configured(captures: Captures): Config {
    var credentials, host := Captured(captures, 2), Captured(captures, 3);
    Config(
      Captured(captures, 1),
      if credentials.Some? then Piece(Split(credentials.value, ':'), 0) else None,
      if credentials.Some? then Piece(Split(credentials.value, ':'), 1) else None,
      if host.Some? then Piece(SplitPort(host.value, 0, 0), 0) else None,
      if host.Some? then Piece(SplitPort(host.value, 0, 0), 1) else None,
      Captured(captures, 4))
  }

  /** `parse`. */
  function Parse(s: string): (r: Result)
    ensures r.Error? <==> exists i :: 0 <= i < |s| && IsSpace(s[i])
    ensures r.Error? ==> r.message == "connection string is not valid"
  {
    MatchIsScan(s);
    var matches := Match(MATCHER, s, 0, map[]);
    if matches.None? then Error("connection string is not valid") else Ok(Configured(matches.value))
  }

  lemma ParseIsScan(s: string)
    requires NoSpace(s)
    ensures Parse(s) == Ok(Configured(Scan(s)))
  {
    MatchIsScan(s);
  }

  // ----- What the splits return

  lemma {:induction false} SplitPortWithoutColon(s: string, p: nat, q: nat)
    requires p <= q <= |s|
    requires forall k :: q <= k < |s| ==> !IsPortColon(s, k)
    ensures SplitPort(s, p, q) == [s[p..]]
    decreases |s| - q
  {
    if q == |s| {
    } else {
      SplitPortWithoutColon(s, p, q + 1);
    }
  }

  lemma {:induction false} SplitPortAtColon(s: string, p: nat, q: nat, k: nat)
    requires p <= q <= k && IsPortColon(s, k)
    ensures SplitPort(s, p, q) == [s[p..k], s[k + 1..]]
    decreases |s| - q
  {
    forall j | k < j < |s|
      ensures !IsPortColon(s, j)
    {
      assert s[k + 1..][j - k - 1] == s[j];
    }
    if q == k {
      SplitPortWithoutColon(s, q + 1, q + 1);
    } else {
      assert s[q + 1..][k - q - 1] == ':' && !IsDigit(':');
      SplitPortAtColon(s, p, q + 1, k);
    }
  }

  predicate EndsInPort(host: string) {
    exists k :: 0 <= k < |host| && IsPortColon(host, k)
  }

  /** Host and port never come in more than two pieces: the two sides of the colon that only digits
      follow, or the whole text when there is no such colon. */
  lemma HostSplitsOnce(s: string)
    ensures |SplitPort(s, 0, 0)| == if EndsInPort(s) then 2 else 1
    ensures forall k :: 0 <= k < |s| && IsPortColon(s, k) ==> SplitPort(s, 0, 0) == [s[..k], s[k + 1..]]
    ensures !EndsInPort(s) ==> SplitPort(s, 0, 0) == [s]
  {
    if !EndsInPort(s) {
      SplitPortWithoutColon(s, 0, 0);
    }
    forall k | 0 <= k < |s| && IsPortColon(s, k)
      ensures SplitPort(s, 0, 0) == [s[..k], s[k + 1..]]
    {
      SplitPortAtColon(s, 0, 0, k);
    }
  }
}
