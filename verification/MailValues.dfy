/** What becomes of values that hold braces or the codes of a replacement text. */
module MailValues {
  import opened Options
  import opened MailTemplate
  import opened MailTemplateLaws

  // ----- Values with braces

  lemma ListedHead(c: char, s: string, pairs: seq<Pair>)
    ensures Listed([c] + s, pairs) == Listed(s, pairs) + if Opens([c] + s, pairs) then 1 else 0
    ensures !Opens([c] + s, pairs) ==> Fill([c] + s, pairs) == [c] + Fill(s, pairs)
  {
    hide Opens;
    assert ([c] + s)[1..] == s;
  }

  lemma {:induction false} ListedAfter(w: string, s: string, pairs: seq<Pair>)
    ensures Listed(w + s, pairs) >= Listed(s, pairs)
    ensures Listed(w + s, pairs) == Listed(s, pairs) ==> Fill(w + s, pairs) == w + Fill(s, pairs)
  {
    hide Opens, Fill, Listed;
    if w == "" {
      assert w + s == s && w + Fill(s, pairs) == Fill(s, pairs);
    } else {
      ListedAfter(w[1..], s, pairs);
      assert w + s == [w[0]] + (w[1..] + s);
      ListedHead(w[0], w[1..] + s, pairs);
      assert w + Fill(s, pairs) == [w[0]] + (w[1..] + Fill(s, pairs));
    }
  }

  lemma {:induction false} ListedCopies(w: string, s: string, pairs: seq<Pair>)
    requires '{' !in w
    ensures Listed(w + s, pairs) == Listed(s, pairs)
  {
    if w == "" {
      assert w + s == s;
    } else {
      ListedCopies(w[1..], s, pairs);
      assert (w + s)[1..] == w[1..] + s;
    }
  }

  lemma ListedName(s: string, pairs: seq<Pair>)
    requires Name(s).Some?
    ensures Listed(s, pairs) == Listed(AfterName(s), pairs) + if Opens(s, pairs) then 1 else 0
  {
    var w := Name(s).value + "}";
    UpToCloseLength(s[1..]);
    assert s[1..] == w + AfterName(s);
    ListedCopies(w, AfterName(s), pairs);
  }

  /** A replace keeps all other placeholders; if it brings up none, the rest of the list fills in what the whole
      list would have, whatever braces the values hold. */
  lemma {:induction false} NothingNewFills(s: string, pairs: seq<Pair>)
    requires LiteralPairs(pairs) && DistinctKeys(pairs) && pairs != []
    ensures Listed(Replace(s, pairs[0]), pairs[1..]) >= Listed(s, pairs[1..])
    ensures Listed(Replace(s, pairs[0]), pairs[1..]) == Listed(s, pairs[1..]) ==>
              Fill(Replace(s, pairs[0]), pairs[1..]) == Fill(s, pairs)
    decreases |s|
  {
    var p, rest, r := pairs[0], pairs[1..], Replace(s, pairs[0]);
    assert p in pairs;
    if s == "" {
    } else if Name(s) == Some(p.key) {
      var after := AfterName(s);
      ReplaceName(s, p);
      FirstKeyIsGone(pairs, p.key);
      ListedName(s, rest);
      NothingNewFills(after, pairs);
      ListedAfter(p.value, Replace(after, p), rest);
    } else if Opens(s, pairs) {
      var name, after := Name(s).value, AfterName(s);
      FirstKeyIsGone(pairs, name);
      ReplaceOther(s, p);
      NothingNewFills(after, pairs);
      UpToCloseLength(s[1..]);
      NameOf(name, Replace(after, p));
      ListedName(s, rest);
      ListedName(r, rest);
    } else {
      ReplaceHead(s, p);
      NothingNewFills(s[1..], pairs);
      if Name(s).Some? { FirstKeyIsGone(pairs, Name(s).value); }
    }
  }

  /** Filling in placeholders by plain values takes one brace for each. */
  lemma {:induction false} BracesOfFill(s: string, pairs: seq<Pair>)
    requires PlainPairs(pairs)
    ensures Braces(Fill(s, pairs)) + Listed(s, pairs) == Braces(s)
    decreases |s|
  {
    if s == "" {
    } else if Opens(s, pairs) {
      BracesOfFill(AfterName(s), pairs);
      FillKnown(s, pairs);
      ListedName(s, pairs);
      BracesAfterName(s);
    } else {
      BracesOfFill(s[1..], pairs);
      BracesAdd([s[0]], Fill(s[1..], pairs));
    }
  }

  lemma BracesAfterName(s: string)
    requires Name(s).Some?
    ensures Braces(s) == 1 + Braces(AfterName(s))
  {
    var w := Name(s).value + "}";
    UpToCloseLength(s[1..]);
    assert s[1..] == w + AfterName(s);
    BracesAdd(w, AfterName(s));
  }

  /** So does filling in the whole list, if only the first value may hold braces. */
  lemma {:induction false} BracesOfFirst(s: string, pairs: seq<Pair>)
    requires LiteralPairs(pairs) && DistinctKeys(pairs) && pairs != [] && PlainPairs(pairs[1..])
    ensures Braces(Fill(s, pairs)) + Listed(s, pairs[1..]) == Braces(Replace(s, pairs[0]))
    decreases |s|
  {
    var p, rest := pairs[0], pairs[1..];
    assert p in pairs;
    if s == "" {
    } else if Name(s) == Some(p.key) {
      ReplaceName(s, p);
      FirstKeyIsGone(pairs, p.key);
      ListedName(s, rest);
      BracesOfFirst(AfterName(s), pairs);
      BracesAdd(p.value, Replace(AfterName(s), p));
      BracesAdd(p.value, Fill(AfterName(s), pairs));
    } else if Opens(s, pairs) {
      var name, after := Name(s).value, AfterName(s);
      FirstKeyIsGone(pairs, name);
      LookupIsPlain(rest, name);
      ReplaceOther(s, p);
      NameOf(name, Replace(after, p));
      BracesAfterName(Replace(s, p));
      ListedName(s, rest);
      BracesOfFirst(after, pairs);
      BracesAdd(Lookup(pairs, name).value, Fill(after, pairs));
    } else {
      ReplaceHead(s, p);
      BracesOfFirst(s[1..], pairs);
      if Name(s).Some? { FirstKeyIsGone(pairs, Name(s).value); }
      BracesAdd([s[0]], Fill(s[1..], pairs));
    }
  }

  /** Whatever braces the values hold, the chain is the simultaneous substitution as long as no replace brings up
      a placeholder that is listed later; if only the first value holds braces, then only so. */
  lemma {:induction false} NothingNewExactly(text: string, pairs: seq<Pair>)
    requires LiteralPairs(pairs) && DistinctKeys(pairs)
    ensures NothingNew(text, pairs) ==> Chain(text, pairs) == Fill(text, pairs)
    ensures (pairs != [] ==> PlainPairs(pairs[1..])) && Chain(text, pairs) == Fill(text, pairs) ==>
              NothingNew(text, pairs)
    decreases |pairs|
  {
    if pairs == [] {
      FillNothing(text);
    } else {
      var next, rest := Replace(text, pairs[0]), pairs[1..];
      ChainStep(text, pairs);
      NothingNewFills(text, pairs);
      NothingNewExactly(next, rest);
      if PlainPairs(rest) {
        assert rest != [] ==> PlainPairs(rest[1..]);
        BracesOfFirst(text, pairs);
        BracesOfFill(next, rest);
        ChainIsFillExactly(next, rest);
      }
    }
  }

  // ----- One placeholder

  lemma {:induction false} ReplaceKeeps(text: string, i: nat, p: Pair)
    requires i <= |text| && forall j :: i <= j <= |text| ==> !(Placeholder(p.key) <= text[j..])
    ensures ReplaceFrom(text, i, p) == text[i..]
    decreases |text| - i
  {
    if i == |text| {
    } else {
      ReplaceKeeps(text, i + 1, p);
      assert text[i..] == [text[i]] + text[i + 1..];
    }
  }

  /** A text without placeholders of the list stays as it is, whatever the values. */
  lemma {:induction false} ChainKeeps(text: string, pairs: seq<Pair>)
    requires !Survives(text, pairs)
    ensures Chain(text, pairs) == text
    decreases |pairs|
  {
    if pairs == [] {
    } else {
      forall j | 0 <= j <= |text|
        ensures !(Placeholder(pairs[0].key) <= text[j..])
      {
        assert Lookup(pairs, pairs[0].key).Some?;
      }
      ReplaceKeeps(text, 0, pairs[0]);
      assert text[0..] == text;
      ChainKeeps(text, pairs[1..]);
    }
  }

  lemma {:induction false} ChainSplits(text: string, pairs: seq<Pair>, i: nat)
    requires i <= |pairs|
    ensures Chain(text, pairs) == Chain(Chain(text, pairs[..i]), pairs[i..])
    decreases i
  {
    if i == 0 {
      assert pairs[0..] == pairs;
    } else {
      ChainSplits(ReplaceFrom(text, 0, pairs[0]), pairs[1..], i - 1);
      assert pairs[..i][1..] == pairs[1..][..i - 1] && pairs[1..][i - 1..] == pairs[i..];
    }
  }

  /** Every opening brace of the text belongs to this placeholder. */
  predicate HoldsOnly(text: string, key: string) {
    forall i :: 0 <= i < |text| && text[i] == '{' ==> Placeholder(key) <= text[i..]
  }

  lemma HoldsNoOther(text: string, key: string, pairs: seq<Pair>)
    requires HoldsOnly(text, key) && Plain(key) && PlainKeys(pairs) && Lookup(pairs, key).None?
    ensures !Survives(text, pairs)
  {
    if Survives(text, pairs) {
      var i, k :| 0 <= i <= |text| && Lookup(pairs, k).Some? && Placeholder(k) <= text[i..];
      assert text[i] == text[i..][0] == '{';
      KeyIsPlain(pairs, k);
      NameIsPlaceholder(text[i..], k);
      NameIsPlaceholder(text[i..], key);
      assert false;
    }
  }

  lemma HoldsOnlyAfter(w: string, text: string, key: string)
    requires HoldsOnly(text, key) && '{' !in w
    ensures HoldsOnly(w + text, key)
  {
    var r := w + text;
    assert forall i :: 0 <= i < |w| ==> r[i] == w[i] && w[i] in w;
    forall i | 0 <= i < |r| && r[i] == '{'
      ensures Placeholder(key) <= r[i..]
    {
      assert r[i..] == text[i - |w|..];
    }
  }

  lemma HoldsOnlyPlaceholder(key: string, text: string)
    requires Plain(key) && HoldsOnly(text, key)
    ensures HoldsOnly(Placeholder(key) + text, key)
  {
    var w, r := key + "}", Placeholder(key) + text;
    HoldsOnlyAfter(w, text, key);
    forall i | 0 <= i < |r| && r[i] == '{'
      ensures Placeholder(key) <= r[i..]
    {
      if i > 0 { assert r[i..] == (w + text)[i - 1..] && (w + text)[i - 1] == '{'; }
    }
  }

  /** The codes bring nothing into a placeholder's replacement but the placeholder itself. */
  lemma {:induction false} ExpandHoldsOnly(value: string, key: string)
    requires Plain(key) && '{' !in value
    ensures HoldsOnly(Expand(value, Placeholder(key), 0, |Placeholder(key)|), key)
  {
    var text := Placeholder(key);
    if value == "" {
    } else if OpensWithCode(value) {
      assert '{' !in value[2..];
      ExpandHoldsOnly(value[2..], key);
      var rest := Expand(value[2..], text, 0, |text|);
      HoldsOnlyAfter("$", rest, key);
      HoldsOnlyAfter("", rest, key);
      HoldsOnlyPlaceholder(key, rest);
      assert text[0..|text|] == text && text[..0] == "" && text[|text|..] == "";
    } else {
      ExpandHoldsOnly(value[1..], key);
      HoldsOnlyAfter([value[0]], Expand(value[1..], text, 0, |text|), key);
    }
  }

  lemma {:induction false} DistinctTail(pairs: seq<Pair>, i: nat)
    requires DistinctKeys(pairs) && i <= |pairs|
    ensures DistinctKeys(pairs[i..])
    ensures i > 0 ==> Lookup(pairs[i..], pairs[i - 1].key).None?
  {
    if i == 0 {
      assert pairs[0..] == pairs;
    } else {
      DistinctTail(pairs[1..], i - 1);
      assert pairs[1..][i - 1..] == pairs[i..];
      if i == 1 { FirstKeyIsGone(pairs, pairs[0].key); }
    }
  }

  lemma {:induction false} EarlierKeysDiffer(pairs: seq<Pair>, i: nat)
    requires DistinctKeys(pairs) && i < |pairs|
    ensures Lookup(pairs[..i], pairs[i].key).None?
  {
    if i == 0 {
    } else {
      EarlierKeysDiffer(pairs[1..], i - 1);
      assert pairs[..i][1..] == pairs[1..][..i - 1] && pairs[i] in pairs[1..];
    }
  }

  /** The chain on one placeholder: only its own value and the pairs after it matter. */
  lemma ChainOfPlaceholder(pairs: seq<Pair>, i: nat)
    requires PlainKeys(pairs) && DistinctKeys(pairs) && i < |pairs|
    ensures var p, text := pairs[i], Placeholder(pairs[i].key);
            Chain(text, pairs) == Chain(Expand(p.value, text, 0, |text|), pairs[i + 1..])
  {
    hide Expand;
    var p, text := pairs[i], Placeholder(pairs[i].key);
    assert p in pairs;
    HoldsOnlyPlaceholder(p.key, "");
    assert text + "" == text;
    EarlierKeysDiffer(pairs, i);
    HoldsNoOther(text, p.key, pairs[..i]);
    ChainKeeps(text, pairs[..i]);
    ChainSplits(text, pairs, i);
    assert text[0..] == text && pairs[i..][1..] == pairs[i + 1..];
    var r := Expand(p.value, text, 0, |text|);
    assert ReplaceFrom(text, 0, p) == r + "" == r;
  }

  /** A code before the end brings in the brace of the match, or is longer than what replaces it. */
  lemma {:induction false} ExpandShrinks(value: string, text: string)
    requires text != "" && text[0] == '{'
    ensures var r := Expand(value, text, 0, |text|);
            '{' in r || (|r| <= |value| && (|r| == |value| ==> Literal(value)))
  {
    if value == "" {
    } else if OpensWithCode(value) {
      ExpandShrinks(value[2..], text);
      if value[1] == '&' { assert text[0..|text|][0] == '{'; }
    } else {
      ExpandShrinks(value[1..], text);
      LiteralTail(value);
    }
  }

  /** In the template that is one placeholder, a value without braces arrives unchanged if and only if no `$` in
      it stands before `$`, `&`, a backquote or an apostrophe, whatever the other values. */
  lemma ValueArrivesExactly(pairs: seq<Pair>, i: nat)
    requires PlainKeys(pairs) && DistinctKeys(pairs) && i < |pairs| && Plain(pairs[i].value)
    ensures Chain(Placeholder(pairs[i].key), pairs) == pairs[i].value <==> Literal(pairs[i].value)
  {
    hide Expand, Chain, Literal;
    var p, text := pairs[i], Placeholder(pairs[i].key);
    assert p in pairs && '{' !in p.value;
    ChainOfPlaceholder(pairs, i);
    var r := Expand(p.value, text, 0, |text|);
    ExpandHoldsOnly(p.value, p.key);
    DistinctTail(pairs, i + 1);
    HoldsNoOther(r, p.key, pairs[i + 1..]);
    ChainKeeps(r, pairs[i + 1..]);
    if Literal(p.value) {
      ExpandLiteral(p.value, text, 0, |text|);
    } else {
      ExpandShrinks(p.value, text);
    }
  }

  lemma {:induction false} NoBraceNoReplace(text: string, i: nat, p: Pair)
    requires i <= |text| && '{' !in text[i..]
    ensures ReplaceFrom(text, i, p) == text[i..]
    decreases |text| - i
  {
    if i == |text| {
    } else {
      assert text[i] == text[i..][0] && Placeholder(p.key)[0] == '{';
      assert text[i..] == [text[i]] + text[i + 1..];
      NoBraceNoReplace(text, i + 1, p);
    }
  }

  lemma ReplaceAt(text: string, at: nat, p: Pair, v: string)
    requires at <= |text| && text[at..] == Placeholder(p.key) + v && '{' !in v
    ensures ReplaceFrom(text, at, p) == Expand(p.value, text, at, |Placeholder(p.key)|) + v
  {
    hide Expand, Placeholder;
    var next := at + |Placeholder(p.key)|;
    assert text[next..] == text[at..][|Placeholder(p.key)|..] == v;
    NoBraceNoReplace(text, next, p);
    PlaceholderIsLong(p.key);
  }

  lemma PlaceholderIsLong(key: string)
    ensures |Placeholder(key)| >= 2
  {}

  lemma ReplaceSkips(text: string, i: nat, p: Pair)
    requires i < |text| && text[i] != '{'
    ensures ReplaceFrom(text, i, p) == [text[i]] + ReplaceFrom(text, i + 1, p)
  {
    hide Expand;
    assert Placeholder(p.key)[0] == '{' && text[i..][0] == text[i];
  }

  /** A replace in a text with one placeholder, which stands between w and v. */
  lemma {:induction false} ReplaceBetween(w: string, p: Pair, v: string, i: nat)
    requires '{' !in w && '{' !in v && i <= |w|
    ensures var text, width := w + Placeholder(p.key) + v, |Placeholder(p.key)|;
            ReplaceFrom(text, i, p) == w[i..] + (Expand(p.value, text, |w|, width) + v)
    decreases |w| - i
  {
    hide Expand, ReplaceFrom, Placeholder;
    var text, width := w + Placeholder(p.key) + v, |Placeholder(p.key)|;
    if i == |w| {
      assert text[i..] == Placeholder(p.key) + v && w[i..] == "";
      ReplaceAt(text, i, p, v);
    } else {
      assert text[i] == w[i] && w[i] in w;
      ReplaceSkips(text, i, p);
      ReplaceBetween(w, p, v, i + 1);
      assert w[i..] == [w[i]] + w[i + 1..];
    }
  }

  lemma CodeMeans(w: string, p: Pair, v: string)
    requires '{' !in w && '{' !in v
    ensures var text, width := w + Placeholder(p.key) + v, |Placeholder(p.key)|;
            Chain(text, [p]) == w + Expand(p.value, text, |w|, width) + v
  {
    hide Expand, ReplaceFrom;
    ReplaceBetween(w, p, v, 0);
    var r := Expand(p.value, w + Placeholder(p.key) + v, |w|, |Placeholder(p.key)|);
    assert w[0..] == w && [p][1..] == [] && w + (r + v) == w + r + v;
  }

  lemma NoDollarIsLiteral(value: string)
    requires '$' !in value
    ensures Literal(value)
  {
    forall i | 0 <= i < |value|
      ensures !OpensWithCode(value[i..])
    {
      assert value[i] in value;
    }
  }

  /** What a code stands for. */
  function CodeText(code: string, text: string, at: nat, width: nat): string
    requires at + width <= |text|
  {
    if code == "$$" then "$" else if code == "$&" then text[at..at + width]
    else if code == "$`" then text[..at] else text[at + width..]
  }

  lemma ExpandAtCode(code: string, y: string, text: string, at: nat, width: nat)
    requires at + width <= |text| && |code| == 2 && OpensWithCode(code)
    ensures Expand(code + y, text, at, width) == CodeText(code, text, at, width) + Expand(y, text, at, width)
  {
    assert (code + y)[..2] == code && (code + y)[2..] == y;
  }

  lemma ExpandFirst(c: char, value: string, text: string, at: nat, width: nat)
    requires at + width <= |text| && c != '$'
    ensures Expand([c] + value, text, at, width) == [c] + Expand(value, text, at, width)
  {
    assert ([c] + value)[1..] == value && ([c] + value)[0] == c;
  }

  /** A code stands for its text, and what stands before and after it is read on its own. */
  lemma {:induction false} ExpandCode(x: string, code: string, y: string, text: string, at: nat, width: nat)
    requires at + width <= |text| && '$' !in x && |code| == 2 && OpensWithCode(code)
    ensures Expand(x + (code + y), text, at, width) ==
            x + (CodeText(code, text, at, width) + Expand(y, text, at, width))
  {
    hide Expand, CodeText;
    var tail := CodeText(code, text, at, width) + Expand(y, text, at, width);
    if x == "" {
      ExpandAtCode(code, y, text, at, width);
      assert x + (code + y) == code + y && x + tail == tail;
    } else {
      ExpandCode(x[1..], code, y, text, at, width);
      ExpandFirst(x[0], x[1..] + (code + y), text, at, width);
      assert x + (code + y) == [x[0]] + (x[1..] + (code + y)) && x + tail == [x[0]] + (x[1..] + tail);
    }
  }

  lemma CodeInText(w: string, key: string, v: string, x: string, code: string, y: string)
    requires '{' !in w && '{' !in v && '$' !in x && '$' !in y && |code| == 2 && OpensWithCode(code)
    ensures Chain(w + Placeholder(key) + v, [Pair(key, x + (code + y))]) ==
            w + (x + ((if code == "$$" then "$" else if code == "$&" then Placeholder(key)
                       else if code == "$`" then w else v) + y)) + v
  {
    hide Expand, Chain;
    var text, width := w + Placeholder(key) + v, |Placeholder(key)|;
    assert text[|w|..|w| + width] == Placeholder(key) && text[..|w|] == w && text[|w| + width..] == v;
    CodeMeans(w, Pair(key, x + (code + y)), v);
    ExpandCode(x, code, y, text, |w|, width);
    NoDollarIsLiteral(y);
    ExpandLiteral(y, text, |w|, width);
  }

  /** What the four codes bring in, in the middle of a value: a dollar sign, the placeholder, the text before it, and
      the text after it. */
  lemma CodesMean(w: string, key: string, v: string, x: string, y: string)
    requires '{' !in w && '{' !in v && '$' !in x && '$' !in y
    ensures var text := w + Placeholder(key) + v;
            && Chain(text, [Pair(key, x + ("$$" + y))]) == w + (x + ("$" + y)) + v
            && Chain(text, [Pair(key, x + ("$&" + y))]) == w + (x + (Placeholder(key) + y)) + v
            && Chain(text, [Pair(key, x + ("$`" + y))]) == w + (x + (w + y)) + v
            && Chain(text, [Pair(key, x + ("$'" + y))]) == w + (x + (v + y)) + v
  {
    hide Chain, Placeholder;
    CodeInText(w, key, v, x, "$$", y);
    CodeInText(w, key, v, x, "$&", y);
    CodeInText(w, key, v, x, "$`", y);
    CodeInText(w, key, v, x, "$'", y);
  }

  lemma {:induction false} SurvivesIsListed(s: string, pairs: seq<Pair>)
    requires PlainKeys(pairs)
    ensures Survives(s, pairs) <==> Listed(s, pairs) > 0
  {
    if s == "" {
    } else {
      SurvivesIsListed(s[1..], pairs);
      assert s == [s[0]] + s[1..];
      SurvivorsOfHead(s[0], s[1..], pairs);
    }
  }

  /** A value with braces arrives unchanged if and only if it holds no placeholder that is listed later. */
  lemma BracedValueArrivesExactly(pairs: seq<Pair>, i: nat)
    requires PlainKeys(pairs) && DistinctKeys(pairs) && i < |pairs|
    requires Literal(pairs[i].value) && PlainPairs(pairs[i + 1..])
    ensures Chain(Placeholder(pairs[i].key), pairs) == Chain(pairs[i].value, pairs[i + 1..])
    ensures Chain(Placeholder(pairs[i].key), pairs) == pairs[i].value <==>
            !Survives(pairs[i].value, pairs[i + 1..])
  {
    hide Expand, Chain, Literal, Plain;
    var value, text, later := pairs[i].value, Placeholder(pairs[i].key), pairs[i + 1..];
    ChainOfPlaceholder(pairs, i);
    ExpandLiteral(value, text, 0, |text|);
    DistinctTail(pairs, i + 1);
    if Survives(value, later) {
      SurvivesIsListed(value, later);
      BracesOfFill(value, later);
      ChainIsFillExactly(value, later);
    } else {
      ChainKeeps(value, later);
    }
  }

  // ----- Placeholders that values bring up

  lemma NothingAfter(pairs: seq<Pair>)
    ensures Resolve("", pairs) == Fill("", pairs) == ""
    ensures ReadGroup("}", pairs) == Some(Group("", {}, "")) && Fill("}", pairs) == "}"
  {
    assert "}"[1..] == "" && Fill("", pairs) == "";
  }

  lemma PlaceholderResolves(key: string, pairs: seq<Pair>)
    requires Plain(key) && Lookup(pairs, key).Some?
    ensures Resolve(Placeholder(key), pairs) == Fill(Placeholder(key), pairs) == Lookup(pairs, key).value
  {
    hide Plain, Lookup, UpToClose;
    NameOf(key, "");
    assert Placeholder(key) + "" == Placeholder(key);
    ReadName(Placeholder(key), pairs);
    NothingAfter(pairs);
  }

  /** A placeholder in braces, whose value is a later key: the chain replaces it twice. */
  lemma NestedResolves(key: string, name: string, pairs: seq<Pair>)
    requires Plain(key) && Plain(name) && Lookup(pairs, key) == Some(name) && Lookup(pairs, name).Some?
    requires Index(pairs, key) < Index(pairs, name)
    ensures var s := "{" + Placeholder(key) + "}";
            && Resolve(s, pairs) == Lookup(pairs, name).value
            && Fill(s, pairs) == Placeholder(name)
  {
    hide Plain, Lookup, Index;
    var s := "{" + Placeholder(key) + "}";
    assert s[1..] == Placeholder(key) + "}";
    NestedGroup(key, name, pairs);
    NestedFill(key, name, pairs);
    NothingAfter(pairs);
    assert Resolve(s, pairs) == Lookup(pairs, name).value + Resolve("", pairs);
  }

  lemma NestedGroup(key: string, name: string, pairs: seq<Pair>)
    requires Plain(key) && Lookup(pairs, key) == Some(name)
    ensures ReadGroup(Placeholder(key) + "}", pairs) == Some(Group(name, {key}, ""))
  {
    hide Plain, Lookup, Index, UpToClose;
    NameOf(key, "}");
    ReadName(Placeholder(key) + "}", pairs);
    NothingAfter(pairs);
    assert name + "" == name && {} + {key} + {} == {key};
  }

  lemma NestedFill(key: string, name: string, pairs: seq<Pair>)
    requires Plain(key) && Lookup(pairs, key) == Some(name)
    ensures Fill("{" + Placeholder(key) + "}", pairs) == Placeholder(name)
  {
    hide Plain, Lookup;
    var s := "{" + Placeholder(key) + "}";
    assert s[1..] == Placeholder(key) + "}";
    NameOf(key, "}");
    NothingAfter(pairs);
    assert Fill(s[1..], pairs) == name + "}";
    assert Name(s).None?;
    assert "{" + (name + "}") == Placeholder(name);
  }

  /** A value that ends in a later placeholder, on the template that is its own placeholder. */
  lemma ValueBringsPlaceholder(pairs: seq<Pair>, i: nat, j: nat, w: string)
    requires PlainKeys(pairs) && DistinctKeys(pairs) && i < j < |pairs|
    requires Literal(pairs[i].value) && PlainPairs(pairs[i + 1..])
    requires pairs[i].value == w + Placeholder(pairs[j].key) && '{' !in w
    ensures Chain(Placeholder(pairs[i].key), pairs) == w + pairs[j].value
    ensures Fill(Placeholder(pairs[i].key), pairs) == w + Placeholder(pairs[j].key)
  {
    hide Chain, Fill, DistinctKeys, Plain, Literal, PlainPairs, Resolve, Survives, Lookup, Index;
    var later := pairs[i + 1..];
    assert later[j - i - 1] == pairs[j] && pairs[i] in pairs && pairs[j] in pairs;
    BracedValueArrivesExactly(pairs, i);
    DistinctTail(pairs, i + 1);
    ChainResolves(pairs[i].value, later);
    ResolveAfter(w, Placeholder(pairs[j].key), later);
    IndexIsPlace(later, j - i - 1);
    PlaceholderResolves(pairs[j].key, later);
    IndexIsPlace(pairs, i);
    PlaceholderResolves(pairs[i].key, pairs);
  }

  lemma FirstOfPlaceholder(p: Pair, rest: seq<Pair>)
    requires Literal(p.value)
    ensures ReplaceFrom(Placeholder(p.key), 0, p) == p.value
    ensures Chain(Placeholder(p.key), [p] + rest) == Chain(p.value, rest)
  {
    hide Literal;
    var text := Placeholder(p.key);
    ExpandLiteral(p.value, text, 0, |text|);
    assert text[0..] == text && ReplaceFrom(text, 0, p) == p.value + "";
    assert ([p] + rest)[1..] == rest;
  }

  lemma OnlyPlaceholder(key: string, pairs: seq<Pair>)
    requires PlainKeys(pairs) && Plain(key)
    ensures Listed(Placeholder(key), pairs) > 0 <==> Lookup(pairs, key).Some?
  {
    hide Plain, Lookup, Listed;
    SurvivesIsListed(Placeholder(key), pairs);
    if Lookup(pairs, key).Some? {
      assert Placeholder(key) <= Placeholder(key)[0..];
    } else {
      HoldsOnlyPlaceholder(key, "");
      assert Placeholder(key) + "" == Placeholder(key);
      HoldsNoOther(Placeholder(key), key, pairs);
    }
  }

  lemma ChainOfThree(a: Pair, b: Pair, c: Pair)
    requires a.value == c.value == Placeholder(b.key) && b.value == Placeholder(c.key)
    requires Literal(a.value) && Literal(b.value)
    ensures Chain(Placeholder(a.key), [a, b, c]) == Placeholder(b.key)
  {
    hide Literal;
    FirstOfPlaceholder(a, [b, c]);
    FirstOfPlaceholder(b, [c]);
    FirstOfPlaceholder(c, []);
    assert [a] + [b, c] == [a, b, c] && [b] + [c] == [b, c] && [c] + [] == [c];
  }

  /** Where several values hold braces, replaces can undo each other: this chain brings up new placeholders and
      still ends with the simultaneous substitution. */
  lemma ReplacesUndoEachOther(a: Pair, b: Pair, c: Pair)
    requires Plain(a.key) && Plain(b.key) && Plain(c.key) && a.key != b.key && a.key != c.key
    requires a.value == c.value == Placeholder(b.key) && b.value == Placeholder(c.key)
    requires Literal(a.value) && Literal(b.value)
    ensures Chain(Placeholder(a.key), [a, b, c]) == Fill(Placeholder(a.key), [a, b, c])
    ensures !NothingNew(Placeholder(a.key), [a, b, c])
  {
    hide Chain, Fill, Listed, Literal, Plain;
    ChainOfThree(a, b, c);
    PlaceholderResolves(a.key, [a, b, c]);
    FirstOfPlaceholder(a, [b, c]);
    assert [a, b, c][1..] == [b, c] && [b, c][1..] == [c] && [c][1..] == [];
    OnlyPlaceholder(a.key, [b, c]);
    OnlyPlaceholder(b.key, [b, c]);
    assert Lookup([], a.key).None? && Lookup([c], a.key).None? && Lookup([b, c], a.key).None?;
  }
}
