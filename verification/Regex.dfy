/** Backtracking regular expressions with ordered choice, as section 22.2.2 of ECMA-262 gives them:
    a quantifier first tries to take more, and gives characters back only when the rest of the
    pattern fails. */
module Regex {
  import opened Options

  datatype Class = Only(c: char) | NoneOf(chars: set<char>)

  datatype Node =
    | One(cls: Class)
    | Run(cls: Class, min: nat)         // cls* or cls+, greedy
    | Maybe(body: seq<Node>)            // (?: body )?, greedy
    | Capture(group: nat, body: seq<Node>)
    | Close(group: nat, from: nat)      // the closing parenthesis of a group that was opened at `from`
    | End                               // $

  type Captures = map<nat, string>

  /** The characters of `\s`. */
  predicate IsSpace(c: char) {
    c in {'\t', '\n', '\U{000B}', '\U{000C}', '\r', ' ', '\U{00A0}', '\U{1680}', '\U{2028}', '\U{2029}',
          '\U{202F}', '\U{205F}', '\U{3000}', '\U{FEFF}'}
    || '\U{2000}' <= c <= '\U{200A}'
  }

  /** Every negated class of the patterns here also excludes white space. */
  predicate In(c: char, cls: Class) {
    match cls
    case Only(d) => c == d
    case NoneOf(chars) => c !in chars && !IsSpace(c)
  }

  function Size(pattern: seq<Node>): nat {
    if pattern == [] then 0 else NodeSize(pattern[0]) + Size(pattern[1..])
  }

  function NodeSize(node: Node): (size: nat)
    ensures size >= 1
  {
    match node
    case Maybe(body) => 1 + Size(body)
    case Capture(_, body) => 2 + Size(body)
    case _ => 1
  }

  lemma {:induction false} SizeAppends(a: seq<Node>, b: seq<Node>)
    ensures Size(a + b) == Size(a) + Size(b)
  {
    if a == [] {
      assert a + b == b;
    } else {
      SizeAppends(a[1..], b);
      assert (a + b)[1..] == a[1..] + b;
    }
  }

  /** Matches the pattern at position i, with the groups captured so far. */
  function Match(pattern: seq<Node>, s: string, i: nat, captures: Captures): Option<Captures>
    requires i <= |s|
    decreases |s| - i, Size(pattern)
  {
    if pattern == [] then Some(captures)
    else
      var rest := pattern[1..];
      assert Size(pattern) == NodeSize(pattern[0]) + Size(rest);
      match pattern[0]
      case One(cls) =>
        if i < |s| && In(s[i], cls) then Match(rest, s, i + 1, captures) else None
      case Run(cls, min) =>
        if i < |s| && In(s[i], cls) then
          var longer := Match([Run(cls, if min > 0 then min - 1 else 0)] + rest, s, i + 1, captures);
          if longer.Some? || min > 0 then longer else Match(rest, s, i, captures)
        else if min == 0 then Match(rest, s, i, captures)
        else None
      case Maybe(body) =>
        SizeAppends(body, rest);
        var taken := Match(body + rest, s, i, captures);
        if taken.Some? then taken else Match(rest, s, i, captures)
      case Capture(group, body) =>
        SizeAppends(body, [Close(group, i)] + rest);
        Match(body + ([Close(group, i)] + rest), s, i, captures)
      case Close(group, from) =>
        if from <= i then Match(rest, s, i, captures[group := s[from..i]]) else None
      case End =>
        if i == |s| then Match(rest, s, i, captures) else None
  }

  // ----- Greedy runs

  /** Where the longest run of characters of a class ends. */
  function RunEnd(cls: Class, s: string, i: nat): (end: nat)
    requires i <= |s|
    ensures i <= end <= |s|
    ensures forall j :: i <= j < end ==> In(s[j], cls)
    ensures end < |s| ==> !In(s[end], cls)
    decreases |s| - i
  {
    if i < |s| && In(s[i], cls) then RunEnd(cls, s, i + 1) else i
  }

  /** A run matches at its full length when the rest of the pattern then matches, or when it matches
      after no shorter run either. */
  lemma {:induction false} RunIsGreedy(cls: Class, min: nat, rest: seq<Node>, s: string, i: nat, captures: Captures)
    requires i <= |s|
    requires var end := RunEnd(cls, s, i);
             (Match(rest, s, end, captures).Some? && i + min <= end)
             || forall j :: i + min <= j < end ==> Match(rest, s, j, captures).None?
    ensures var end := RunEnd(cls, s, i);
            Match([Run(cls, min)] + rest, s, i, captures) ==
            if i + min <= end then Match(rest, s, end, captures) else None
    decreases |s| - i
  {
    var pattern := [Run(cls, min)] + rest;
    assert pattern[1..] == rest;
    if i < |s| && In(s[i], cls) {
      var less := if min > 0 then min - 1 else 0;
      RunIsGreedy(cls, less, rest, s, i + 1, captures);
      var longer := Match([Run(cls, less)] + rest, s, i + 1, captures);
      assert Match(pattern, s, i, captures) ==
             if longer.Some? || min > 0 then longer else Match(rest, s, i, captures);
      if longer.None? && min == 0 {
        assert Match(rest, s, i, captures).None?;
      }
    } else {
      assert Match(pattern, s, i, captures) == if min == 0 then Match(rest, s, i, captures) else None;
    }
  }

  /** Where a run may end so that the rest of the pattern matches. */
  ghost predicate MayEnd(cls: Class, min: nat, rest: seq<Node>, s: string, i: nat, captures: Captures, j: int)
    requires i <= |s|
  {
    i + min <= j <= RunEnd(cls, s, i) && Match(rest, s, j, captures).Some?
  }

  /** In general a run ends at the last place j from which the rest of the pattern matches, and the whole fails only if
      there is none: backtracking misses nothing and prefers the longest run. */
  lemma {:induction false} RunTakesLongest(cls: Class, min: nat, rest: seq<Node>, s: string, i: nat,
                                           captures: Captures)
    returns (j: nat)
    requires i <= |s|
    ensures var m := Match([Run(cls, min)] + rest, s, i, captures);
            if m.Some? then
              && MayEnd(cls, min, rest, s, i, captures, j) && m == Match(rest, s, j, captures)
              && forall k :: MayEnd(cls, min, rest, s, i, captures, k) ==> k <= j
            else forall k :: !MayEnd(cls, min, rest, s, i, captures, k)
    decreases |s| - i
  {
    var pattern := [Run(cls, min)] + rest;
    assert pattern[1..] == rest;
    j := i;
    if i < |s| && In(s[i], cls) {
      var less := if min > 0 then min - 1 else 0;
      var next := RunTakesLongest(cls, less, rest, s, i + 1, captures);
      forall k
        ensures MayEnd(cls, min, rest, s, i, captures, k) <==>
                || MayEnd(cls, less, rest, s, i + 1, captures, k)
                || (k == i && min == 0 && Match(rest, s, i, captures).Some?)
      {}
      var longer := Match([Run(cls, less)] + rest, s, i + 1, captures);
      assert Match(pattern, s, i, captures) ==
             if longer.Some? || min > 0 then longer else Match(rest, s, i, captures);
      if longer.Some? { j := next; }
    } else {
      assert Match(pattern, s, i, captures) == if min == 0 then Match(rest, s, i, captures) else None;
    }
  }

  // ----- White space

  /** The code points that ECMA-262 counts as white space or line terminators, in sections 12.2 and 12.3. */
  lemma SpacesAre(c: char)
    ensures IsSpace(c) <==>
            c as int in {9, 10, 11, 12, 13, 32, 160, 5760, 8192, 8193, 8194, 8195, 8196, 8197, 8198, 8199, 8200,
                         8201, 8202, 8232, 8233, 8239, 8287, 12288, 65279}
  {}

  predicate NoSpace(s: string) {
    forall i :: 0 <= i < |s| ==> !IsSpace(s[i])
  }

  /** No class of the pattern takes white space. */
  predicate SkipsSpace(pattern: seq<Node>) {
    forall node :: node in pattern ==> NodeSkipsSpace(node)
  }

  predicate NodeSkipsSpace(node: Node) {
    match node
    case One(cls) => cls.Only? ==> !IsSpace(cls.c)
    case Run(cls, _) => cls.Only? ==> !IsSpace(cls.c)
    case Maybe(body) => SkipsSpace(body)
    case Capture(_, body) => SkipsSpace(body)
    case Close(_, _) => true
    case End => true
  }

  lemma SkipsSpaceAppends(a: seq<Node>, b: seq<Node>)
    requires SkipsSpace(a) && SkipsSpace(b)
    ensures SkipsSpace(a + b)
  {}

  /** A pattern that runs to the end of the input and takes no white space matches only input free of
      it, whatever its backtracking tries. */
  lemma {:induction false} MatchTakesNoSpace(pattern: seq<Node>, s: string, i: nat, captures: Captures)
    requires i <= |s| && SkipsSpace(pattern)
    requires pattern != [] && pattern[|pattern| - 1] == End
    requires Match(pattern, s, i, captures).Some?
    ensures NoSpace(s[i..])
    decreases |s| - i, Size(pattern)
  {
    var rest := pattern[1..];
    assert Size(pattern) == NodeSize(pattern[0]) + Size(rest);
    assert pattern[0] in pattern;
    assert forall node :: node in rest ==> node in pattern;
    match pattern[0]
    case One(cls) =>
      MatchTakesNoSpace(rest, s, i + 1, captures);
      assert s[i..] == [s[i]] + s[i + 1..];
    case Run(cls, min) =>
      var again := [Run(cls, if min > 0 then min - 1 else 0)] + rest;
      if i < |s| && In(s[i], cls) && Match(again, s, i + 1, captures).Some? {
        MatchTakesNoSpace(again, s, i + 1, captures);
        assert s[i..] == [s[i]] + s[i + 1..];
      } else {
        MatchTakesNoSpace(rest, s, i, captures);
      }
    case Maybe(body) =>
      SizeAppends(body, rest);
      SkipsSpaceAppends(body, rest);
      if Match(body + rest, s, i, captures).Some? {
        MatchTakesNoSpace(body + rest, s, i, captures);
      } else {
        MatchTakesNoSpace(rest, s, i, captures);
      }
    case Capture(group, body) =>
      SizeAppends(body, [Close(group, i)] + rest);
      assert SkipsSpace([Close(group, i)]);
      SkipsSpaceAppends([Close(group, i)], rest);
      SkipsSpaceAppends(body, [Close(group, i)] + rest);
      MatchTakesNoSpace(body + ([Close(group, i)] + rest), s, i, captures);
    case Close(group, from) =>
      MatchTakesNoSpace(rest, s, i, captures[group := s[from..i]]);
    case End =>
      assert s[i..] == [];
  }
}
