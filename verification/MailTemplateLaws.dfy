/** What the chain of replaces amounts to: one pass over the template, and exactly when that is one
    simultaneous substitution, when the order of the replaces matters, and when a placeholder survives. */
module MailTemplateLaws {
  import opened Options
  import opened MailTemplate

  // ----- Replacement texts

  lemma {:induction false} LiteralTail(value: string)
    requires value != ""
    ensures Literal(value) <==> !OpensWithCode(value) && Literal(value[1..])
  {
    assert value[0..] == value;
    forall i | 0 < i < |value|
      ensures value[i..] == value[1..][i - 1..]
    {}
    assert forall i :: 0 <= i < |value[1..]| ==> value[1..][i..] == value[i + 1..];
  }

  lemma {:induction false} ExpandLiteral(value: string, text: string, at: nat, width: nat)
    requires Literal(value) && at + width <= |text|
    ensures Expand(value, text, at, width) == value
  {
    if value == "" {
    } else {
      LiteralTail(value);
      ExpandLiteral(value[1..], text, at, width);
      assert value == [value[0]] + value[1..];
    }
  }

  // ----- One replace

  /** A replace whose value holds no code. */
  function Replace(s: string, p: Pair): string {
    if s == "" then ""
    else if Placeholder(p.key) <= s then p.value + Replace(s[|Placeholder(p.key)|..], p)
    else [s[0]] + Replace(s[1..], p)
  }

  lemma {:induction false} ReplaceFromIsReplace(text: string, i: nat, p: Pair)
    requires i <= |text| && Literal(p.value)
    ensures ReplaceFrom(text, i, p) == Replace(text[i..], p)
    decreases |text| - i
  {
    if i == |text| {
    } else {
      var width := |Placeholder(p.key)|;
      if Placeholder(p.key) <= text[i..] {
        ExpandLiteral(p.value, text, i, width);
        ReplaceFromIsReplace(text, i + width, p);
        assert text[i..][width..] == text[i + width..];
      } else {
        ReplaceFromIsReplace(text, i + 1, p);
        assert text[i..][1..] == text[i + 1..];
      }
    }
  }

  lemma {:induction false} UpToCloseAfter(w: string, s: string)
    requires Plain(w)
    ensures UpToClose(w + s) == if UpToClose(s).Some? then Some(w + UpToClose(s).value) else None
  {
    if w == "" {
      assert w + s == s;
      if UpToClose(s).Some? { assert w + UpToClose(s).value == UpToClose(s).value; }
    } else {
      UpToCloseAfter(w[1..], s);
      assert (w + s)[1..] == w[1..] + s;
      if UpToClose(s).Some? { assert w + UpToClose(s).value == [w[0]] + (w[1..] + UpToClose(s).value); }
    }
  }

  lemma NameIsPlaceholder(s: string, key: string)
    requires Plain(key)
    ensures Placeholder(key) <= s <==> Name(s) == Some(key)
    ensures Name(s) == Some(key) ==> s[|Placeholder(key)|..] == AfterName(s)
  {
    if Placeholder(key) <= s {
      var rest := s[|key| + 2..];
      assert s[1..] == key + ("}" + rest);
      UpToCloseAfter(key, "}" + rest);
      assert key + "" == key;
    }
    if Name(s) == Some(key) {
      assert s == Placeholder(key) + AfterName(s);
    }
  }

  lemma NameOf(key: string, rest: string)
    requires Plain(key)
    ensures Name(Placeholder(key) + rest) == Some(key) && AfterName(Placeholder(key) + rest) == rest
  {
    NameIsPlaceholder(Placeholder(key) + rest, key);
    assert (Placeholder(key) + rest)[|Placeholder(key)|..] == rest;
  }

  /** Text without an opening brace is copied. */
  lemma {:induction false} ReplaceCopies(w: string, s: string, p: Pair)
    requires '{' !in w
    ensures Replace(w + s, p) == w + Replace(s, p)
  {
    if w == "" {
      assert w + s == s;
    } else {
      ReplaceCopies(w[1..], s, p);
      assert (w + s)[1..] == w[1..] + s;
      assert !(Placeholder(p.key) <= w + s) by { assert Placeholder(p.key)[0] == '{' && (w + s)[0] == w[0]; }
    }
  }

  lemma {:induction false} LookupIsPlain(pairs: seq<Pair>, key: string)
    requires PlainPairs(pairs) && Lookup(pairs, key).Some?
    ensures Plain(Lookup(pairs, key).value) && Plain(key)
  {
    if pairs[0].key == key {
      assert pairs[0] in pairs;
    } else {
      LookupIsPlain(pairs[1..], key);
    }
  }

  lemma {:induction false} LookupIsMembership(pairs: seq<Pair>, key: string, value: string)
    requires DistinctKeys(pairs)
    ensures Lookup(pairs, key) == Some(value) <==> Pair(key, value) in pairs
  {
    if pairs == [] {
    } else {
      assert pairs == [pairs[0]] + pairs[1..];
      LookupIsMembership(pairs[1..], key, value);
    }
  }

  lemma {:induction false} KeyIsPlain(pairs: seq<Pair>, key: string)
    requires PlainKeys(pairs) && Lookup(pairs, key).Some?
    ensures Plain(key)
  {
    if pairs[0].key == key {
      assert pairs[0] in pairs;
    } else {
      KeyIsPlain(pairs[1..], key);
    }
  }

  lemma FirstKeyIsGone(pairs: seq<Pair>, key: string)
    requires DistinctKeys(pairs) && pairs != []
    ensures Lookup(pairs[1..], key).Some? <==> Lookup(pairs, key).Some? && key != pairs[0].key
  {
    var found := Lookup(pairs[1..], pairs[0].key);
    if found.Some? { LookupIsMembership(pairs[1..], pairs[0].key, found.value); }
  }

  lemma ReplaceHead(s: string, p: Pair)
    requires Plain(p.key) && s != "" && Name(s) != Some(p.key)
    ensures Replace(s, p) == [s[0]] + Replace(s[1..], p) && Replace(s, p)[1..] == Replace(s[1..], p)
  {
    NameIsPlaceholder(s, p.key);
  }

  lemma ReplaceName(s: string, p: Pair)
    requires Name(s) == Some(p.key)
    ensures Replace(s, p) == p.value + Replace(AfterName(s), p)
  {
    UpToCloseLength(s[1..]);
    NameIsPlaceholder(s, p.key);
  }

  lemma ReplaceOther(s: string, p: Pair)
    requires Plain(p.key) && Name(s).Some? && Name(s).value != p.key
    ensures Replace(s, p) == Placeholder(Name(s).value) + Replace(AfterName(s), p)
  {
    NameIsPlaceholder(s, p.key);
    UpToCloseLength(s[1..]);
    var w := Name(s).value + "}";
    assert s[1..] == w + AfterName(s);
    ReplaceCopies(w, AfterName(s), p);
  }

  // ----- Reading a group

  lemma {:induction false} ReadAfter(w: string, s: string, pairs: seq<Pair>)
    requires Plain(w)
    ensures ReadGroup(w + s, pairs) == var g := ReadGroup(s, pairs);
                                       if g.Some? then Some(g.value.(name := w + g.value.name)) else None
  {
    if w == "" {
      assert w + s == s;
      if ReadGroup(s, pairs).Some? { assert w + ReadGroup(s, pairs).value.name == ReadGroup(s, pairs).value.name; }
    } else {
      ReadAfter(w[1..], s, pairs);
      assert (w + s)[1..] == w[1..] + s;
      if ReadGroup(s, pairs).Some? {
        assert w + ReadGroup(s, pairs).value.name == [w[0]] + (w[1..] + ReadGroup(s, pairs).value.name);
      }
    }
  }

  /** A placeholder is a group that holds only its name. */
  lemma ReadName(s: string, pairs: seq<Pair>)
    requires Name(s).Some?
    ensures ReadGroup(s[1..], pairs) == Some(Group(Name(s).value, {}, AfterName(s)))
    ensures Resolves(s, pairs) <==> Opens(s, pairs)
  {
    var name, rest := Name(s).value, AfterName(s);
    UpToCloseLength(s[1..]);
    assert s[1..] == name + ("}" + rest);
    assert ("}" + rest)[1..] == rest;
    ReadAfter(name, "}" + rest, pairs);
    assert name + "" == name;
  }

  lemma {:induction false} ReadIsPlain(t: string, pairs: seq<Pair>)
    requires PlainPairs(pairs) && ReadGroup(t, pairs).Some?
    ensures Plain(ReadGroup(t, pairs).value.name)
    decreases |t|
  {
    hide PlainPairs, Lookup, Index;
    if t[0] == '}' {
    } else if t[0] == '{' {
      var inner := ReadGroup(t[1..], pairs).value;
      ReadIsPlain(inner.rest, pairs);
      LookupIsPlain(pairs, inner.name);
    } else {
      ReadIsPlain(t[1..], pairs);
    }
  }

  lemma {:induction false} ReadShape(t: string, pairs: seq<Pair>)
    requires ReadGroup(t, pairs).Some?
    ensures var g := ReadGroup(t, pairs).value; g.keys == {} ==> t == g.name + ("}" + g.rest)
    decreases |t|
  {
    hide Replaced, Lookup;
    var g := ReadGroup(t, pairs).value;
    if t[0] == '}' {
    } else if t[0] == '{' {
      assert ReadGroup(t[1..], pairs).value.name in g.keys;
    } else {
      ReadShape(t[1..], pairs);
      assert t == [t[0]] + t[1..];
    }
  }

  /** A group without placeholders is a name in braces. */
  lemma EmptyGroupIsName(s: string, pairs: seq<Pair>)
    requires PlainPairs(pairs) && s != "" && s[0] == '{'
    requires ReadGroup(s[1..], pairs).Some? && ReadGroup(s[1..], pairs).value.keys == {}
    ensures Name(s) == Some(ReadGroup(s[1..], pairs).value.name)
  {
    var g := ReadGroup(s[1..], pairs).value;
    ReadIsPlain(s[1..], pairs);
    ReadShape(s[1..], pairs);
    UpToCloseAfter(g.name, "}" + g.rest);
    assert g.name + "" == g.name;
  }

  // ----- One step of the chain

  /** A replace takes its own key out of a group, and leaves the rest of the list the same decision. */
  ghost predicate Follows(g: Group, h: Group, p: Pair) {
    h.name == g.name && h.keys == g.keys - {p.key} && h.rest == Replace(g.rest, p)
  }

  lemma ReplacedAfterReplace(g: Group, h: Group, pairs: seq<Pair>)
    requires DistinctKeys(pairs) && pairs != [] && Follows(g, h, pairs[0])
    requires g.name == pairs[0].key ==> g.keys != {}
    ensures Replaced(h, pairs[1..]) == Replaced(g, pairs)
    ensures Replaced(g, pairs) ==> g.name != pairs[0].key && Lookup(pairs[1..], g.name) == Lookup(pairs, g.name)
  {
    var p, rest := pairs[0], pairs[1..];
    FirstKeyIsGone(pairs, g.name);
    if Replaced(g, pairs) {
      if g.keys != {} {
        var key :| key in g.keys;
        assert Index(pairs, key) < Index(pairs, g.name);
      }
      forall key | key in h.keys
        ensures Index(rest, key) < Index(rest, g.name)
      {
        assert key in g.keys;
      }
    }
    if Replaced(h, rest) {
      forall key | key in g.keys
        ensures Index(pairs, key) < Index(pairs, g.name)
      {
        if key != p.key { assert key in h.keys; }
      }
    }
  }

  lemma {:induction false} ReadAfterReplace(t: string, pairs: seq<Pair>)
    requires PlainPairs(pairs) && DistinctKeys(pairs) && pairs != []
    ensures var g, h := ReadGroup(t, pairs), ReadGroup(Replace(t, pairs[0]), pairs[1..]);
            g.Some? == h.Some? && (g.Some? ==> Follows(g.value, h.value, pairs[0]))
    decreases |t|
  {
    var p, rest := pairs[0], pairs[1..];
    assert p in pairs;
    if t == "" {
    } else if Name(t) == Some(p.key) {
      ReplaceName(t, p);
      ReadName(t, pairs);
      ReadAfterReplace(AfterName(t), pairs);
      ReadAfter(p.value, Replace(AfterName(t), p), rest);
    } else {
      ReplaceHead(t, p);
      ReadAfterReplace(t[1..], pairs);
      if t[0] == '{' && ReadGroup(t[1..], pairs).Some? {
        var inner := ReadGroup(t[1..], pairs).value;
        if inner.keys == {} { EmptyGroupIsName(t, pairs); }
        ReplacedAfterReplace(inner, ReadGroup(Replace(t[1..], p), rest).value, pairs);
        ReadAfterReplace(inner.rest, pairs);
      }
    }
  }

  lemma {:induction false} ResolveAfter(w: string, s: string, pairs: seq<Pair>)
    requires '{' !in w
    ensures Resolve(w + s, pairs) == w + Resolve(s, pairs)
  {
    if w == "" {
      assert w + s == s;
    } else {
      ResolveAfter(w[1..], s, pairs);
      assert (w + s)[1..] == w[1..] + s;
    }
  }

  /** One replace leaves the rest of the list the same text to resolve to, whatever the template. */
  lemma {:induction false} ResolveStep(s: string, pairs: seq<Pair>)
    requires PlainPairs(pairs) && DistinctKeys(pairs) && pairs != []
    ensures Resolve(Replace(s, pairs[0]), pairs[1..]) == Resolve(s, pairs)
    decreases |s|
  {
    var p, rest := pairs[0], pairs[1..];
    assert p in pairs;
    if s == "" {
    } else if Name(s) == Some(p.key) {
      ReplaceName(s, p);
      ReadName(s, pairs);
      ResolveStep(AfterName(s), pairs);
      ResolveAfter(p.value, Replace(AfterName(s), p), rest);
    } else {
      ReplaceHead(s, p);
      ResolveStep(s[1..], pairs);
      ReadAfterReplace(s[1..], pairs);
      if s[0] == '{' && ReadGroup(s[1..], pairs).Some? {
        var g := ReadGroup(s[1..], pairs).value;
        if g.keys == {} { EmptyGroupIsName(s, pairs); }
        ReplacedAfterReplace(g, ReadGroup(Replace(s[1..], p), rest).value, pairs);
        ResolveStep(g.rest, pairs);
      }
    }
  }

  lemma {:induction false} ResolveNothing(s: string)
    ensures Resolve(s, []) == s
  {
    if s == "" {
    } else {
      ResolveNothing(s[1..]);
    }
  }

  lemma ChainStep(text: string, pairs: seq<Pair>)
    requires LiteralPairs(pairs) && pairs != []
    ensures ReplaceFrom(text, 0, pairs[0]) == Replace(text, pairs[0])
    ensures Chain(text, pairs) == Chain(Replace(text, pairs[0]), pairs[1..])
    ensures LiteralPairs(pairs[1..])
  {
    assert pairs[0] in pairs && text[0..] == text;
    ReplaceFromIsReplace(text, 0, pairs[0]);
  }

  /** The chain of replaces is one pass over the template, which replaces innermost groups and the groups built
      from them, each exactly when its name is listed after all that went into it. */
  lemma {:induction false} ChainResolves(text: string, pairs: seq<Pair>)
    requires PlainPairs(pairs) && DistinctKeys(pairs)
    ensures Chain(text, pairs) == Resolve(text, pairs)
    decreases |pairs|
  {
    if pairs == [] {
      ResolveNothing(text);
    } else {
      ChainStep(text, pairs);
      ResolveStep(text, pairs);
      ChainResolves(Replace(text, pairs[0]), pairs[1..]);
    }
  }

  // ----- The one pass against the simultaneous substitution

  lemma {:induction false} FillAfter(w: string, s: string, pairs: seq<Pair>)
    requires '{' !in w
    ensures Fill(w + s, pairs) == w + Fill(s, pairs)
  {
    hide Lookup, UpToClose;
    if w == "" {
      assert w + s == s;
    } else {
      FillAfter(w[1..], s, pairs);
      assert (w + s)[1..] == w[1..] + s;
    }
  }

  lemma {:induction false} FillNothing(s: string)
    ensures Fill(s, []) == s
  {
    if s == "" {
    } else {
      FillNothing(s[1..]);
    }
  }

  lemma {:induction false} BuildsAfter(w: string, s: string, pairs: seq<Pair>)
    requires '{' !in w
    ensures Builds(w + s, pairs) == Builds(s, pairs)
  {
    if w == "" {
      assert w + s == s;
    } else {
      BuildsAfter(w[1..], s, pairs);
      assert (w + s)[1..] == w[1..] + s;
    }
  }

  /** Where placeholders are all that a group holds, the chain reads the group as it stands. */
  lemma {:induction false} GroupIsRead(t: string, pairs: seq<Pair>)
    requires GroupAt(t, pairs).Some?
    ensures ReadGroup(t, pairs) == GroupAt(t, pairs)
    decreases |t|
  {
    if Opens(t, pairs) {
      GroupIsRead(AfterName(t), pairs);
      ReadName(t, pairs);
      assert {} + {Name(t).value} + GroupAt(AfterName(t), pairs).value.keys ==
             GroupAt(AfterName(t), pairs).value.keys + {Name(t).value};
    } else if t[0] == '}' {
    } else {
      GroupIsRead(t[1..], pairs);
    }
  }

  lemma {:induction false} ReadIsGroup(t: string, pairs: seq<Pair>)
    requires PlainPairs(pairs) && ReadGroup(t, pairs).Some? && !Builds(t, pairs)
    ensures GroupAt(t, pairs) == ReadGroup(t, pairs)
    decreases |t|
  {
    if t[0] == '}' {
    } else if t[0] == '{' {
      var inner := ReadGroup(t[1..], pairs).value;
      ReadIsGroup(t[1..], pairs);
      EmptyGroupIsName(t, pairs);
      ReadName(t, pairs);
      BuildsAfterName(t, pairs);
      ReadIsGroup(inner.rest, pairs);
      var keys := ReadGroup(inner.rest, pairs).value.keys;
      assert {} + {inner.name} + keys == keys + {inner.name};
    } else {
      ReadIsGroup(t[1..], pairs);
    }
  }

  lemma BuildsAfterName(s: string, pairs: seq<Pair>)
    requires PlainPairs(pairs) && Opens(s, pairs)
    ensures Builds(s, pairs) == Builds(AfterName(s), pairs)
  {
    var w := Name(s).value + "}";
    UpToCloseLength(s[1..]);
    assert s[1..] == w + AfterName(s);
    BuildsAfter(w, AfterName(s), pairs);
    ReadName(s, pairs);
    if GroupAt(s[1..], pairs).Some? { GroupIsRead(s[1..], pairs); }
  }

  function Braces(s: string): nat {
    if s == "" then 0 else (if s[0] == '{' then 1 else 0) + Braces(s[1..])
  }

  lemma {:induction false} BracesAdd(a: string, b: string)
    ensures Braces(a + b) == Braces(a) + Braces(b)
    ensures '{' !in a ==> Braces(a) == 0
  {
    if a == "" {
      assert a + b == b;
    } else {
      BracesAdd(a[1..], b);
      assert (a + b)[1..] == a[1..] + b;
    }
  }

  lemma FillKnown(s: string, pairs: seq<Pair>)
    requires PlainPairs(pairs) && Opens(s, pairs)
    ensures Fill(s[1..], pairs) == Name(s).value + "}" + Fill(AfterName(s), pairs)
    ensures Braces(Fill(s, pairs)) == Braces(Fill(AfterName(s), pairs)) == Braces(Fill(s[1..], pairs))
  {
    hide Braces;
    var w := Name(s).value + "}";
    UpToCloseLength(s[1..]);
    LookupIsPlain(pairs, Name(s).value);
    assert s[1..] == w + AfterName(s);
    FillAfter(w, AfterName(s), pairs);
    BracesAdd(w, Fill(AfterName(s), pairs));
    BracesAdd(Lookup(pairs, Name(s).value).value, Fill(AfterName(s), pairs));
  }

  lemma FillTail(s: string, pairs: seq<Pair>)
    requires PlainPairs(pairs) && s != ""
    ensures Braces(Fill(s[1..], pairs)) <= Braces(Fill(s, pairs))
    ensures s[0] == '{' && !Opens(s, pairs) ==> Braces(Fill(s[1..], pairs)) < Braces(Fill(s, pairs))
  {
    if Opens(s, pairs) {
      FillKnown(s, pairs);
    } else {
      BracesAdd([s[0]], Fill(s[1..], pairs));
      assert Fill(s, pairs)[1..] == Fill(s[1..], pairs);
    }
  }

  /** What follows a group holds no more braces, filled in, than the group and what follows it. */
  lemma {:induction false} BracesOfRead(t: string, pairs: seq<Pair>)
    requires PlainPairs(pairs) && ReadGroup(t, pairs).Some?
    ensures Braces(Fill(ReadGroup(t, pairs).value.rest, pairs)) <= Braces(Fill(t, pairs))
    decreases |t|
  {
    FillTail(t, pairs);
    if t[0] == '}' {
    } else if t[0] == '{' {
      BracesOfRead(t[1..], pairs);
      BracesOfRead(ReadGroup(t[1..], pairs).value.rest, pairs);
    } else {
      BracesOfRead(t[1..], pairs);
    }
  }

  /** Replacing a built placeholder loses the braces that the simultaneous substitution keeps. */
  lemma {:induction false} ResolveAgainstFill(s: string, pairs: seq<Pair>)
    requires PlainPairs(pairs)
    ensures !Builds(s, pairs) ==> Resolve(s, pairs) == Fill(s, pairs)
    ensures Braces(Resolve(s, pairs)) <= Braces(Fill(s, pairs))
    ensures Builds(s, pairs) ==> Braces(Resolve(s, pairs)) < Braces(Fill(s, pairs))
    decreases |s|
  {
    if s == "" {
    } else if Opens(s, pairs) {
      var value := Lookup(pairs, Name(s).value).value;
      ReadName(s, pairs);
      BuildsAfterName(s, pairs);
      ResolveAgainstFill(AfterName(s), pairs);
      BracesAdd(value, Fill(AfterName(s), pairs));
      BracesAdd(value, Resolve(AfterName(s), pairs));
    } else if Resolves(s, pairs) {
      var g := ReadGroup(s[1..], pairs).value;
      BuiltHead(s, pairs);
      ResolveAgainstFill(g.rest, pairs);
      LookupIsPlain(pairs, g.name);
      BracesAdd(Lookup(pairs, g.name).value, Resolve(g.rest, pairs));
      BracesOfRead(s[1..], pairs);
      FillTail(s, pairs);
    } else {
      if s[0] == '{' && GroupAt(s[1..], pairs).Some? { GroupIsRead(s[1..], pairs); }
      ResolveAgainstFill(s[1..], pairs);
      BracesAdd([s[0]], Fill(s[1..], pairs));
      BracesAdd([s[0]], Resolve(s[1..], pairs));
    }
  }

  lemma BuiltHead(s: string, pairs: seq<Pair>)
    requires PlainPairs(pairs) && !Opens(s, pairs) && Resolves(s, pairs)
    ensures Builds(s, pairs)
  {
    var g := ReadGroup(s[1..], pairs).value;
    if g.keys == {} { EmptyGroupIsName(s, pairs); }
    if !Builds(s[1..], pairs) { ReadIsGroup(s[1..], pairs); }
  }

  /** The chain of replaces is the simultaneous substitution if and only if it builds no placeholder. */
  lemma ChainIsFillExactly(text: string, pairs: seq<Pair>)
    requires PlainPairs(pairs) && DistinctKeys(pairs)
    ensures Chain(text, pairs) == Fill(text, pairs) <==> !Builds(text, pairs)
    ensures Braces(Chain(text, pairs)) <= Braces(Fill(text, pairs))
  {
    ChainResolves(text, pairs);
    ResolveAgainstFill(text, pairs);
  }

  // ----- Survivors

  lemma SurvivorsOfHead(c: char, s: string, pairs: seq<Pair>)
    requires PlainKeys(pairs)
    ensures Survives([c] + s, pairs) <==> Opens([c] + s, pairs) || Survives(s, pairs)
  {
    var t := [c] + s;
    if Survives(t, pairs) {
      var i, key :| 0 <= i <= |t| && Lookup(pairs, key).Some? && Placeholder(key) <= t[i..];
      KeyIsPlain(pairs, key);
      if i == 0 {
        assert t[0..] == t;
        NameIsPlaceholder(t, key);
      } else {
        assert t[i..] == s[i - 1..];
      }
    }
    if Opens(t, pairs) {
      KeyIsPlain(pairs, Name(t).value);
      NameIsPlaceholder(t, Name(t).value);
      assert Placeholder(Name(t).value) <= t[0..];
    }
    if Survives(s, pairs) {
      var i, key :| 0 <= i <= |s| && Lookup(pairs, key).Some? && Placeholder(key) <= s[i..];
      assert t[i + 1..] == s[i..];
    }
  }

  lemma {:induction false} SurvivorsAfter(w: string, s: string, pairs: seq<Pair>)
    requires PlainPairs(pairs) && Plain(w)
    ensures Survives(w + s, pairs) <==> Survives(s, pairs)
  {
    if w == "" {
      assert w + s == s;
    } else {
      SurvivorsAfter(w[1..], s, pairs);
      assert w + s == [w[0]] + (w[1..] + s);
      SurvivorsOfHead(w[0], w[1..] + s, pairs);
    }
  }

  lemma {:induction false} ResolvedUpToClose(t: string, pairs: seq<Pair>)
    requires PlainPairs(pairs)
    ensures var g := ReadGroup(t, pairs);
            UpToClose(Resolve(t, pairs)) == if g.Some? then Some(g.value.name) else None
    decreases |t|
  {
    if t == "" {
    } else if Resolves(t, pairs) {
      var inner := ReadGroup(t[1..], pairs).value;
      LookupIsPlain(pairs, inner.name);
      ResolvedUpToClose(inner.rest, pairs);
      UpToCloseAfter(Lookup(pairs, inner.name).value, Resolve(inner.rest, pairs));
    } else if t[0] != '{' && t[0] != '}' {
      ResolvedUpToClose(t[1..], pairs);
      assert Resolve(t, pairs)[1..] == Resolve(t[1..], pairs);
    }
  }

  /** Inside a group that closes, everything was replaced in time. */
  lemma {:induction false} NothingSticksInside(t: string, pairs: seq<Pair>)
    requires ReadGroup(t, pairs).Some?
    ensures HasStuck(t, pairs) == HasStuck(ReadGroup(t, pairs).value.rest, pairs)
    decreases |t|
  {
    if t[0] == '}' {
    } else if t[0] == '{' {
      NothingSticksInside(t[1..], pairs);
      NothingSticksInside(ReadGroup(t[1..], pairs).value.rest, pairs);
    } else {
      NothingSticksInside(t[1..], pairs);
    }
  }

  lemma {:induction false} ResolveSurvivors(s: string, pairs: seq<Pair>)
    requires PlainPairs(pairs)
    ensures Survives(Resolve(s, pairs), pairs) <==> HasStuck(s, pairs)
    decreases |s|
  {
    if s == "" {
    } else if Resolves(s, pairs) {
      var g := ReadGroup(s[1..], pairs).value;
      LookupIsPlain(pairs, g.name);
      ResolveSurvivors(g.rest, pairs);
      NothingSticksInside(s[1..], pairs);
      SurvivorsAfter(Lookup(pairs, g.name).value, Resolve(g.rest, pairs), pairs);
    } else {
      ResolveSurvivors(s[1..], pairs);
      SurvivorsOfHead(s[0], Resolve(s[1..], pairs), pairs);
      assert ([s[0]] + Resolve(s[1..], pairs))[1..] == Resolve(s[1..], pairs);
      ResolvedUpToClose(s[1..], pairs);
    }
  }

  /** A placeholder of the list survives the chain if and only if a group becomes one too late. */
  lemma SurvivesExactly(text: string, pairs: seq<Pair>)
    requires PlainPairs(pairs) && DistinctKeys(pairs)
    ensures Survives(Chain(text, pairs), pairs) <==> HasStuck(text, pairs)
  {
    ChainResolves(text, pairs);
    ResolveSurvivors(text, pairs);
  }

  // ----- Order

  lemma LookupOfPermutation(a: seq<Pair>, b: seq<Pair>, key: string)
    requires DistinctKeys(a) && IsOrderOf(b, a)
    ensures Lookup(a, key) == Lookup(b, key)
  {
    var x, y := Lookup(a, key), Lookup(b, key);
    if x.Some? {
      LookupIsMembership(a, key, x.value);
      LookupIsMembership(b, key, x.value);
      assert Pair(key, x.value) in multiset(a);
    } else if y.Some? {
      LookupIsMembership(a, key, y.value);
      LookupIsMembership(b, key, y.value);
      assert Pair(key, y.value) in multiset(b);
    }
  }

  lemma {:induction false} FillByLookup(s: string, a: seq<Pair>, b: seq<Pair>)
    requires forall key :: Lookup(a, key) == Lookup(b, key)
    ensures Fill(s, a) == Fill(s, b) && GroupAt(s, a) == GroupAt(s, b)
    decreases |s|
  {
    if s == "" {
    } else if Opens(s, a) {
      FillByLookup(AfterName(s), a, b);
    } else {
      FillByLookup(s[1..], a, b);
    }
  }

  lemma SameFilling(text: string, a: seq<Pair>, b: seq<Pair>)
    requires PlainPairs(a) && DistinctKeys(a) && IsOrderOf(b, a)
    ensures PlainPairs(b) && Fill(text, a) == Fill(text, b) && GroupAt(text, a) == GroupAt(text, b)
    ensures forall key :: Lookup(a, key) == Lookup(b, key)
  {
    forall key
      ensures Lookup(a, key) == Lookup(b, key)
    {
      LookupOfPermutation(a, b, key);
    }
    FillByLookup(text, a, b);
    forall p | p in b
      ensures p in a
    {
      assert p in multiset(b);
    }
  }

  lemma {:induction false} BuiltInSomeOrder(text: string, a: seq<Pair>, b: seq<Pair>)
    requires forall key :: Lookup(a, key) == Lookup(b, key)
    requires Builds(text, b)
    ensures BuildsInSomeOrder(text, a)
  {
    FillByLookup(text[1..], a, b);
    if text[0] == '{' && GroupAt(text[1..], b).Some? && IsBuilt(GroupAt(text[1..], b).value, b) {
      var g := GroupAt(text[1..], b).value;
      assert g.name !in g.keys;
    } else {
      BuiltInSomeOrder(text[1..], a, b);
    }
  }

  lemma {:induction false} IndexIsPlace(pairs: seq<Pair>, i: nat)
    requires DistinctKeys(pairs) && i < |pairs|
    ensures Index(pairs, pairs[i].key) == i && Lookup(pairs, pairs[i].key) == Some(pairs[i].value)
  {
    if i == 0 {
    } else {
      assert pairs[i] in pairs[1..];
      IndexIsPlace(pairs[1..], i - 1);
    }
  }

  lemma {:induction false} IndexFinds(pairs: seq<Pair>, key: string)
    requires Lookup(pairs, key).Some?
    ensures Index(pairs, key) < |pairs| && pairs[Index(pairs, key)].key == key
  {
    if pairs[0].key == key {
    } else {
      IndexFinds(pairs[1..], key);
    }
  }

  lemma {:induction false} DistinctFromPlaces(pairs: seq<Pair>)
    requires forall i, j :: 0 <= i < j < |pairs| ==> pairs[i].key != pairs[j].key
    ensures DistinctKeys(pairs)
  {
    if pairs == [] {
    } else {
      DistinctFromPlaces(pairs[1..]);
    }
  }

  /** The order that lists one pair last. */
  lemma MoveLast(a: seq<Pair>, i: nat) returns (b: seq<Pair>)
    requires DistinctKeys(a) && i < |a|
    ensures IsOrderOf(b, a) && |b| == |a| && b[|b| - 1] == a[i]
  {
    b := a[..i] + a[i + 1..] + [a[i]];
    forall j, k | 0 <= j < k < |b|
      ensures b[j].key != b[k].key
    {
      var x, y := if j < i then j else j + 1, if k == |b| - 1 then i else if k < i then k else k + 1;
      assert b[j] == a[x] && b[k] == a[y] && x != y;
      IndexIsPlace(a, x);
      IndexIsPlace(a, y);
    }
    DistinctFromPlaces(b);
    assert a == a[..i] + [a[i]] + a[i + 1..];
  }

  lemma {:induction false} GroupKeysAreListed(t: string, pairs: seq<Pair>)
    requires GroupAt(t, pairs).Some?
    ensures forall key :: key in GroupAt(t, pairs).value.keys ==> Lookup(pairs, key).Some?
    decreases |t|
  {
    if Opens(t, pairs) {
      GroupKeysAreListed(AfterName(t), pairs);
    } else if t[0] == '}' {
    } else {
      GroupKeysAreListed(t[1..], pairs);
    }
  }

  /** The order with the built name last builds it. */
  lemma {:induction false} OrderThatBuilds(text: string, a: seq<Pair>) returns (b: seq<Pair>)
    requires PlainPairs(a) && DistinctKeys(a) && BuildsInSomeOrder(text, a)
    ensures IsOrderOf(b, a) && Builds(text, b)
  {
    var t := text[1..];
    if text[0] == '{' && GroupAt(t, a).Some? && IsBuiltInSomeOrder(GroupAt(t, a).value, a) {
      var g := GroupAt(t, a).value;
      IndexFinds(a, g.name);
      b := MoveLast(a, Index(a, g.name));
      SameFilling(t, a, b);
      GroupKeysAreListed(t, a);
      BuiltWhenLast(g, b);
    } else {
      b := OrderThatBuilds(t, a);
    }
  }

  lemma BuiltWhenLast(g: Group, b: seq<Pair>)
    requires DistinctKeys(b) && b != [] && b[|b| - 1].key == g.name && g.keys != {} && g.name !in g.keys
    requires forall key :: key in g.keys ==> Lookup(b, key).Some?
    ensures IsBuilt(g, b)
  {
    hide DistinctKeys, Lookup, Index;
    IndexIsPlace(b, |b| - 1);
    forall key | key in g.keys
      ensures Index(b, key) < Index(b, g.name)
    {
      IndexFinds(b, key);
    }
  }

  /** Every order of the replaces gives the simultaneous substitution if and only if no group of the template
      is a placeholder other than those it holds. */
  lemma OrderIsFreeExactly(text: string, pairs: seq<Pair>)
    requires PlainPairs(pairs) && DistinctKeys(pairs)
    ensures (forall order :: IsOrderOf(order, pairs) ==> Chain(text, order) == Fill(text, pairs)) <==>
            !BuildsInSomeOrder(text, pairs)
  {
    forall order | IsOrderOf(order, pairs)
      ensures Chain(text, order) == Fill(text, pairs) <==> !Builds(text, order)
      ensures Builds(text, order) ==> BuildsInSomeOrder(text, pairs)
    {
      SameFilling(text, pairs, order);
      ChainIsFillExactly(text, order);
      if Builds(text, order) { BuiltInSomeOrder(text, pairs, order); }
    }
    if BuildsInSomeOrder(text, pairs) {
      var order := OrderThatBuilds(text, pairs);
    }
  }
}
