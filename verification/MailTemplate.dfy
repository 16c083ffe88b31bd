/** The placeholder substitution of `MailService.send` in src/service/Mail.ts: a chain of global
    replaces, and the single simultaneous substitution that it is meant to be. */
module MailTemplate {
  import opened Options

  /** One link of the chain: `.replace(new RegExp('{key}', 'g'), value)`. */
  datatype Pair = Pair(key: string, value: string)

  function Placeholder(key: string): string {
    "{" + key + "}"
  }

  // ----- The chain

  /** The replacement text, in which `$` stands for parts of the text around the match; see section
      22.1.3.19.1 of ECMA-262. The expressions here have no groups. */
  function Expand(value: string, text: string, at: nat, width: nat): string
    requires at + width <= |text|
  {
    if value == "" then ""
    else if "$$" <= value then "$" + Expand(value[2..], text, at, width)
    else if "$&" <= value then text[at..at + width] + Expand(value[2..], text, at, width)
    else if "$`" <= value then text[..at] + Expand(value[2..], text, at, width)
    else if "$'" <= value then text[at + width..] + Expand(value[2..], text, at, width)
    else [value[0]] + Expand(value[1..], text, at, width)
  }

  /** A global replace, from position i on. */
  function ReplaceFrom(text: string, i: nat, p: Pair): string
    requires i <= |text|
    decreases |text| - i
  {
    if i == |text| then ""
    else if Placeholder(p.key) <= text[i..] then
      var width := |Placeholder(p.key)|;
      Expand(p.value, text, i, width) + ReplaceFrom(text, i + width, p)
    else [text[i]] + ReplaceFrom(text, i + 1, p)
  }

  function Chain(text: string, pairs: seq<Pair>): string
    decreases |pairs|
  {
    if pairs == [] then text else Chain(ReplaceFrom(text, 0, pairs[0]), pairs[1..])
  }

  // ----- The simultaneous substitution

  /** The text up to the next brace, if that brace closes. */
  function UpToClose(s: string): Option<string> {
    if s == "" || s[0] == '{' then None
    else if s[0] == '}' then Some("")
    else
      var rest := UpToClose(s[1..]);
      if rest.Some? then Some([s[0]] + rest.value) else None
  }

  /** The name between braces that s opens with. */
  function Name(s: string): Option<string> {
    if s != "" && s[0] == '{' then UpToClose(s[1..]) else None
  }

  function Lookup(pairs: seq<Pair>, key: string): Option<string> {
    if pairs == [] then None
    else if pairs[0].key == key then Some(pairs[0].value)
    else Lookup(pairs[1..], key)
  }

  /** s opens with a placeholder of the list. */
  predicate Opens(s: string, pairs: seq<Pair>) {
    Name(s).Some? && Lookup(pairs, Name(s).value).Some?
  }

  lemma {:induction false} UpToCloseLength(s: string)
    ensures UpToClose(s).Some? ==>
              && |UpToClose(s).value| < |s| && s[..|UpToClose(s).value|] == UpToClose(s).value
              && s[|UpToClose(s).value|] == '}' && Plain(UpToClose(s).value)
  {
    if s == "" || s[0] == '{' || s[0] == '}' {
    } else {
      UpToCloseLength(s[1..]);
      if UpToClose(s).Some? {
        var n := |UpToClose(s[1..]).value|;
        assert s[..n + 1] == [s[0]] + s[1..][..n];
      }
    }
  }

  /** What follows the placeholder that s opens with. */
  function AfterName(s: string): (rest: string)
    requires Name(s).Some?
    ensures |rest| < |s| && s == Placeholder(Name(s).value) + rest
  {
    UpToCloseLength(s[1..]);
    s[|Name(s).value| + 2..]
  }

  /** Every placeholder of the list is replaced by its value, all at once. */
  function Fill(s: string, pairs: seq<Pair>): string
    decreases |s|
  {
    if s == "" then ""
    else if Opens(s, pairs) then Lookup(pairs, Name(s).value).value + Fill(AfterName(s), pairs)
    else [s[0]] + Fill(s[1..], pairs)
  }

  predicate Plain(s: string) {
    forall i :: 0 <= i < |s| ==> s[i] != '{' && s[i] != '}'
  }

  /** A `$` that a replace reads as a code: one before `$`, `&`, a backquote or an apostrophe. */
  predicate OpensWithCode(value: string) {
    |value| >= 2 && value[0] == '$' && (value[1] == '$' || value[1] == '&' || value[1] == '`' || value[1] == '\'')
  }

  predicate Literal(value: string) {
    forall i :: 0 <= i < |value| ==> !OpensWithCode(value[i..])
  }

  predicate PlainKeys(pairs: seq<Pair>) {
    forall p :: p in pairs ==> Plain(p.key)
  }

  /** Values may hold braces, but nothing that a replace reads as a code. */
  predicate LiteralPairs(pairs: seq<Pair>) {
    forall p :: p in pairs ==> Plain(p.key) && Literal(p.value)
  }

  predicate PlainPairs(pairs: seq<Pair>) {
    forall p :: p in pairs ==> Plain(p.key) && Plain(p.value) && Literal(p.value)
  }

  predicate DistinctKeys(pairs: seq<Pair>) {
    pairs == [] || ((forall p :: p in pairs[1..] ==> p.key != pairs[0].key) && DistinctKeys(pairs[1..]))
  }

  ghost predicate IsOrderOf(a: seq<Pair>, b: seq<Pair>) {
    DistinctKeys(a) && multiset(a) == multiset(b)
  }

  /** The place of a key in the list. */
  function Index(pairs: seq<Pair>, key: string): (i: nat)
    ensures i <= |pairs|
  {
    if pairs == [] || pairs[0].key == key then 0 else 1 + Index(pairs[1..], key)
  }

  // ----- Brace groups

  /** The inside of a brace group: the name that its text and the values of its placeholders make up, the
      keys of those placeholders, and what follows the closing brace. */
  datatype Group = Group(name: string, keys: set<string>, rest: string)

  /** The group that closes the brace just before s: plain text and listed placeholders up to `}`. */
  function GroupAt(s: string, pairs: seq<Pair>): Option<Group>
    decreases |s|
  {
    if s == "" then None
    else if Opens(s, pairs) then
      var g := GroupAt(AfterName(s), pairs);
      if g.None? then None
      else Some(Group(Lookup(pairs, Name(s).value).value + g.value.name, g.value.keys + {Name(s).value}, g.value.rest))
    else if s[0] == '{' then None
    else if s[0] == '}' then Some(Group("", {}, s[1..]))
    else
      var g := GroupAt(s[1..], pairs);
      if g.None? then None else Some(g.value.(name := [s[0]] + g.value.name))
  }

  /** The chain replaces a group whose name is listed after everything that went into it. */
  predicate Replaced(g: Group, pairs: seq<Pair>) {
    Lookup(pairs, g.name).Some? && forall key :: key in g.keys ==> Index(pairs, key) < Index(pairs, g.name)
  }

  predicate IsBuilt(g: Group, pairs: seq<Pair>) {
    g.keys != {} && Replaced(g, pairs)
  }

  predicate IsBuiltInSomeOrder(g: Group, pairs: seq<Pair>) {
    g.keys != {} && Lookup(pairs, g.name).Some? && g.name !in g.keys
  }

  /** Some group of the template holds placeholders and is itself, once they are filled in, a placeholder
      that is listed later than all of them: the chain then replaces what was never in the template. */
  predicate Builds(text: string, pairs: seq<Pair>) {
    text != "" &&
    ((text[0] == '{' && GroupAt(text[1..], pairs).Some? && IsBuilt(GroupAt(text[1..], pairs).value, pairs))
     || Builds(text[1..], pairs))
  }

  /** The same with the keys listed in some other order. */
  predicate BuildsInSomeOrder(text: string, pairs: seq<Pair>) {
    text != "" &&
    ((text[0] == '{' && GroupAt(text[1..], pairs).Some? && IsBuiltInSomeOrder(GroupAt(text[1..], pairs).value, pairs))
     || BuildsInSomeOrder(text[1..], pairs))
  }

  // ----- The chain in one pass

  /** The group that closes the brace just before s after the whole chain: plain text, and groups that the
      chain replaces, up to `}`. */
  function ReadGroup(s: string, pairs: seq<Pair>): (r: Option<Group>)
    ensures r.Some? ==> |r.value.rest| < |s|
    decreases |s|
  {
    if s == "" then None
    else if s[0] == '}' then Some(Group("", {}, s[1..]))
    else if s[0] == '{' then
      var inner := ReadGroup(s[1..], pairs);
      if inner.None? || !Replaced(inner.value, pairs) then None
      else
        var g := ReadGroup(inner.value.rest, pairs);
        if g.None? then None
        else Some(Group(Lookup(pairs, inner.value.name).value + g.value.name,
                        inner.value.keys + {inner.value.name} + g.value.keys, g.value.rest))
    else
      var g := ReadGroup(s[1..], pairs);
      if g.None? then None else Some(g.value.(name := [s[0]] + g.value.name))
  }

  /** s opens with a group that the chain replaces. */
  predicate Resolves(s: string, pairs: seq<Pair>) {
    s != "" && s[0] == '{' && ReadGroup(s[1..], pairs).Some? && Replaced(ReadGroup(s[1..], pairs).value, pairs)
  }

  /** Reads the template once from left to right, and replaces the groups that the chain replaces. */
  function Resolve(s: string, pairs: seq<Pair>): string
    decreases |s|
  {
    if s == "" then ""
    else if Resolves(s, pairs) then
      var g := ReadGroup(s[1..], pairs).value;
      Lookup(pairs, g.name).value + Resolve(g.rest, pairs)
    else [s[0]] + Resolve(s[1..], pairs)
  }

  /** s opens with a group that becomes a placeholder of the list too late to be replaced. */
  predicate Sticks(s: string, pairs: seq<Pair>) {
    && s != "" && s[0] == '{' && ReadGroup(s[1..], pairs).Some?
    && Lookup(pairs, ReadGroup(s[1..], pairs).value.name).Some?
    && !Replaced(ReadGroup(s[1..], pairs).value, pairs)
  }

  predicate HasStuck(text: string, pairs: seq<Pair>) {
    text != "" && (Sticks(text, pairs) || HasStuck(text[1..], pairs))
  }

  /** A placeholder of the list stands somewhere in the text. */
  ghost predicate Survives(text: string, pairs: seq<Pair>) {
    exists i, key :: 0 <= i <= |text| && Lookup(pairs, key).Some? && Placeholder(key) <= text[i..]
  }

  // ----- New placeholders

  /** How many placeholders of the list stand in the text. */
  function Listed(s: string, pairs: seq<Pair>): nat {
    if s == "" then 0 else (if Opens(s, pairs) then 1 else 0) + Listed(s[1..], pairs)
  }

  /** No replace of the chain brings up a placeholder that is listed later. */
  predicate NothingNew(text: string, pairs: seq<Pair>)
    decreases |pairs|
  {
    pairs == [] ||
    (var next := ReplaceFrom(text, 0, pairs[0]);
     Listed(next, pairs[1..]) == Listed(text, pairs[1..]) && NothingNew(next, pairs[1..]))
  }
}
