/** The message of `MailService.send`: its 26 placeholders, and what the laws of the chain say about it. */
module MailMessage {
  import opened Options
  import opened MailTemplate
  import opened MailTemplateLaws
  import opened MailValues

  datatype MailBody = MailBody(
    qty: Option<string>, link: Option<string>, image: Option<string>, email: Option<string>,
    total: Option<string>, actor: Option<string>, fullname: Option<string>, mobileNo: Option<string>,
    subject: Option<string>, message: Option<string>, endDate: Option<string>, comment: Option<string>,
    address: Option<string>, password: Option<string>, planName: Option<string>, salesTax: Option<string>,
    promocode: Option<string>, startDate: Option<string>, planPrice: Option<string>, serviceFee: Option<string>,
    orderId: Option<string>, deliverFee: Option<string>, adminContactEmail: Option<string>,
    serviceCharge: Option<string>, promocodeDiscount: Option<string>)

  const KEYS: seq<string> := [
    "qty", "link", "logo", "email", "total", "actor", "name", "mobile", "subject", "message", "endDate",
    "comment", "address", "appname", "password", "planName", "salesTax", "promocode", "startDate", "planPrice",
    "serviceFee", "invoiceNumber", "deliverFee", "admin", "serviceCharge", "promocodeDiscount"]

  function Values(b: MailBody): (values: seq<string>)
    ensures |values| == |KEYS|
  {
    [b.qty.GetOr(""), b.link.GetOr(""), b.image.GetOr(""), b.email.GetOr(""), b.total.GetOr(""),
     b.actor.GetOr(""), b.fullname.GetOr(""), b.mobileNo.GetOr(""), b.subject.GetOr(""), b.message.GetOr(""),
     b.endDate.GetOr(""), b.comment.GetOr(""), b.address.GetOr(""), "Propane Bros", b.password.GetOr(""),
     b.planName.GetOr(""), b.salesTax.GetOr(""), b.promocode.GetOr(""), b.startDate.GetOr(""),
     b.planPrice.GetOr(""), b.serviceFee.GetOr(""), b.orderId.GetOr(""), b.deliverFee.GetOr(""),
     b.adminContactEmail.GetOr(""), b.serviceCharge.GetOr(""), b.promocodeDiscount.GetOr("")]
  }

  function Zip(keys: seq<string>, values: seq<string>): (pairs: seq<Pair>)
    requires |keys| == |values|
    ensures |pairs| == |keys|
    ensures forall i :: 0 <= i < |keys| ==> pairs[i] == Pair(keys[i], values[i])
  {
    seq(|keys|, i requires 0 <= i < |keys| => Pair(keys[i], values[i]))
  }

  function Replacements(b: MailBody): seq<Pair> {
    Zip(KEYS, Values(b))
  }

  /** The message text of `send`; a missing template is the empty text. */
  function Html(template: Option<string>, b: MailBody): string {
    Chain(template.GetOr(""), Replacements(b))
  }

  /** The place of a key in the list, told by its length and its first two letters. */
  function Place(key: string): nat {
    if |key| < 3 then 26
    else if |key| == 3 then 0
    else if |key| == 4 then if key[1] == 'i' then 1 else if key[1] == 'o' then 2 else 6
    else if |key| == 5 then if key[1] == 'm' then 3 else if key[1] == 'o' then 4 else if key[1] == 'c' then 5 else 23
    else if |key| == 6 then 7
    else if |key| == 7 then
      if key[1] == 'u' then 8 else if key[1] == 'e' then 9 else if key[1] == 'n' then 10
      else if key[1] == 'o' then 11 else if key[1] == 'd' then 12 else 13
    else if |key| == 8 then if key[0] == 's' then 16 else if key[1] == 'a' then 14 else 15
    else if |key| == 9 then if key[1] == 'r' then 17 else if key[1] == 't' then 18 else 19
    else if |key| == 10 then if key[0] == 's' then 20 else 22
    else if |key| == 13 then if key[0] == 'i' then 21 else 24
    else 25
  }

  lemma KeyHasPlace(i: nat)
    requires i < |KEYS|
    ensures Place(KEYS[i]) == i
  {}

  lemma EarlyKeyHasNoBrace(i: nat)
    requires i < 10
    ensures Plain(KEYS[i])
  {}

  lemma MiddleKeyHasNoBrace(i: nat)
    requires 10 <= i < 18
    ensures Plain(KEYS[i])
  {}

  lemma LateKeyHasNoBrace(i: nat)
    requires 18 <= i < |KEYS|
    ensures Plain(KEYS[i])
  {}

  lemma KeyHasNoBrace(i: nat)
    requires i < |KEYS|
    ensures Plain(KEYS[i])
  {
    hide Plain;
    if i < 10 { EarlyKeyHasNoBrace(i); } else if i < 18 { MiddleKeyHasNoBrace(i); } else { LateKeyHasNoBrace(i); }
  }

  lemma KeysDiffer(i: nat, j: nat)
    requires i < j < |KEYS|
    ensures KEYS[i] != KEYS[j]
  {
    KeyHasPlace(i);
    KeyHasPlace(j);
  }

  // ----- What the placeholders mean

  lemma ReplacementsAreDistinct(b: MailBody)
    ensures DistinctKeys(Replacements(b))
  {
    hide Values, DistinctKeys;
    forall i, j | 0 <= i < j < |KEYS|
      ensures KEYS[i] != KEYS[j]
    {
      KeysDiffer(i, j);
    }
    DistinctFromPlaces(Replacements(b));
  }

  /** A placeholder stands for the value in its place. */
  lemma PlaceholderMeans(b: MailBody, i: nat)
    requires i < |KEYS|
    ensures Lookup(Replacements(b), KEYS[i]) == Some(Values(b)[i])
  {
    hide Values, Lookup, DistinctKeys;
    ReplacementsAreDistinct(b);
    IndexIsPlace(Replacements(b), i);
  }

  lemma KeysArePlain(b: MailBody)
    ensures PlainKeys(Replacements(b))
  {
    hide Values, Plain;
    var pairs := Replacements(b);
    forall p | p in pairs
      ensures Plain(p.key)
    {
      var i :| 0 <= i < |pairs| && pairs[i] == p;
      KeyHasNoBrace(i);
    }
  }

  lemma ReplacementsArePlain(b: MailBody)
    requires forall i :: 0 <= i < |KEYS| ==> Plain(Values(b)[i]) && Literal(Values(b)[i])
    ensures PlainPairs(Replacements(b))
  {
    hide Values, Plain, Literal;
    var pairs := Replacements(b);
    forall p | p in pairs
      ensures Plain(p.key) && Plain(p.value) && Literal(p.value)
    {
      var i :| 0 <= i < |pairs| && pairs[i] == p;
      KeyHasNoBrace(i);
    }
  }

  /** With values free of braces and `$` codes, the message is one pass over the template; it is the template with
      all placeholders filled in if and only if the chain builds none; and it holds a placeholder if and only if
      one is built too late. */
  lemma HtmlIsOnePass(template: Option<string>, b: MailBody)
    requires forall i :: 0 <= i < |KEYS| ==> Plain(Values(b)[i]) && Literal(Values(b)[i])
    ensures var text, pairs := template.GetOr(""), Replacements(b);
            && Html(template, b) == Resolve(text, pairs)
            && (Html(template, b) == Fill(text, pairs) <==> !Builds(text, pairs))
            && (Survives(Html(template, b), pairs) <==> HasStuck(text, pairs))
  {
    hide Values, Chain, Fill, Resolve, Builds, DistinctKeys, PlainPairs, Survives, HasStuck, Replacements;
    var text, pairs := template.GetOr(""), Replacements(b);
    ReplacementsArePlain(b);
    ReplacementsAreDistinct(b);
    ChainResolves(text, pairs);
    ChainIsFillExactly(text, pairs);
    SurvivesExactly(text, pairs);
  }

  /** With braces in the values, it is the filled template as long as no value brings up a later placeholder. */
  lemma HtmlWithBraces(template: Option<string>, b: MailBody)
    requires forall i :: 0 <= i < |KEYS| ==> Literal(Values(b)[i])
    requires NothingNew(template.GetOr(""), Replacements(b))
    ensures Html(template, b) == Fill(template.GetOr(""), Replacements(b))
  {
    hide Values, Chain, Fill, DistinctKeys, NothingNew, Literal, Plain;
    var pairs := Replacements(b);
    KeysArePlain(b);
    ReplacementsAreDistinct(b);
    assert LiteralPairs(pairs) by {
      forall p | p in pairs
        ensures Plain(p.key) && Literal(p.value)
      {
        var i :| 0 <= i < |pairs| && pairs[i] == p;
      }
    }
    NothingNewExactly(template.GetOr(""), pairs);
  }

  /** In the template that is one placeholder, a value without braces arrives unchanged if and only if no `$` in
      it stands before `$`, `&`, a backquote or an apostrophe, whatever the other values. */
  lemma PlainValueArrivesExactly(b: MailBody, i: nat)
    requires i < |KEYS| && Plain(Values(b)[i])
    ensures Html(Some(Placeholder(KEYS[i])), b) == Values(b)[i] <==> Literal(Values(b)[i])
  {
    hide Values, Chain, DistinctKeys, Literal, Plain, PlainKeys;
    KeysArePlain(b);
    ReplacementsAreDistinct(b);
    ValueArrivesExactly(Replacements(b), i);
  }

  /** On the template of its own placeholder, a value without braces arrives unchanged exactly when it is literal. */
  predicate Shows(b: MailBody, key: string, value: string) {
    Plain(value) ==> (Html(Some("{" + key + "}"), b) == value <==> Literal(value))
  }

  lemma ShowsAt(b: MailBody, i: nat)
    requires i < |KEYS|
    ensures Shows(b, KEYS[i], Values(b)[i])
  {
    hide Values, Html, Literal, Plain;
    if Plain(Values(b)[i]) { PlainValueArrivesExactly(b, i); }
  }

  /** Each placeholder shows the field that it is meant for. */
  lemma EarlyFieldsAreShown(b: MailBody)
    ensures Shows(b, "qty", b.qty.GetOr("")) && Shows(b, "link", b.link.GetOr(""))
    ensures Shows(b, "logo", b.image.GetOr("")) && Shows(b, "email", b.email.GetOr(""))
    ensures Shows(b, "total", b.total.GetOr("")) && Shows(b, "actor", b.actor.GetOr(""))
    ensures Shows(b, "name", b.fullname.GetOr("")) && Shows(b, "mobile", b.mobileNo.GetOr(""))
    ensures Shows(b, "subject", b.subject.GetOr(""))
  {
    hide Shows;
    ShowsAt(b, 0);
    ShowsAt(b, 1);
    ShowsAt(b, 2);
    ShowsAt(b, 3);
    ShowsAt(b, 4);
    ShowsAt(b, 5);
    ShowsAt(b, 6);
    ShowsAt(b, 7);
    ShowsAt(b, 8);
  }

  lemma MiddleFieldsAreShown(b: MailBody)
    ensures Shows(b, "message", b.message.GetOr("")) && Shows(b, "endDate", b.endDate.GetOr(""))
    ensures Shows(b, "comment", b.comment.GetOr("")) && Shows(b, "address", b.address.GetOr(""))
    ensures Shows(b, "appname", "Propane Bros") && Shows(b, "password", b.password.GetOr(""))
    ensures Shows(b, "planName", b.planName.GetOr("")) && Shows(b, "salesTax", b.salesTax.GetOr(""))
  {
    hide Shows;
    ShowsAt(b, 9);
    ShowsAt(b, 10);
    ShowsAt(b, 11);
    ShowsAt(b, 12);
    ShowsAt(b, 13);
    ShowsAt(b, 14);
    ShowsAt(b, 15);
    ShowsAt(b, 16);
  }

  lemma LateFieldsAreShown(b: MailBody)
    ensures Shows(b, "promocode", b.promocode.GetOr("")) && Shows(b, "startDate", b.startDate.GetOr(""))
    ensures Shows(b, "planPrice", b.planPrice.GetOr("")) && Shows(b, "serviceFee", b.serviceFee.GetOr(""))
    ensures Shows(b, "invoiceNumber", b.orderId.GetOr("")) && Shows(b, "deliverFee", b.deliverFee.GetOr(""))
    ensures Shows(b, "admin", b.adminContactEmail.GetOr(""))
    ensures Shows(b, "serviceCharge", b.serviceCharge.GetOr(""))
    ensures Shows(b, "promocodeDiscount", b.promocodeDiscount.GetOr(""))
  {
    hide Shows;
    ShowsAt(b, 17);
    ShowsAt(b, 18);
    ShowsAt(b, 19);
    ShowsAt(b, 20);
    ShowsAt(b, 21);
    ShowsAt(b, 22);
    ShowsAt(b, 23);
    ShowsAt(b, 24);
    ShowsAt(b, 25);
  }

  /** A missing template is an empty message. */
  lemma NoTemplateNoMessage(b: MailBody)
    ensures Html(None, b) == ""
  {
    hide Replacements, Chain;
    assert !Survives("", Replacements(b));
    ChainKeeps("", Replacements(b));
  }

  lemma LaterArePlain(b: MailBody, i: nat)
    requires i < |KEYS| && forall j :: i < j < |KEYS| ==> Plain(Values(b)[j]) && Literal(Values(b)[j])
    ensures PlainPairs(Replacements(b)[i + 1..])
  {
    hide Values, Plain, Literal;
    var later := Replacements(b)[i + 1..];
    forall p | p in later
      ensures Plain(p.key) && Plain(p.value) && Literal(p.value)
    {
      var j :| 0 <= j < |later| && later[j] == p;
      assert p == Replacements(b)[i + 1 + j];
      KeyHasNoBrace(i + 1 + j);
    }
  }

  /** There a value with braces arrives unchanged if and only if it holds no placeholder that is listed later. */
  lemma BracedHtmlArrivesExactly(b: MailBody, i: nat)
    requires i < |KEYS| && Literal(Values(b)[i])
    requires forall j :: i < j < |KEYS| ==> Plain(Values(b)[j]) && Literal(Values(b)[j])
    ensures Html(Some(Placeholder(KEYS[i])), b) == Values(b)[i] <==>
            !Survives(Values(b)[i], Replacements(b)[i + 1..])
  {
    hide Values, Chain, DistinctKeys, Literal, Plain, PlainKeys, PlainPairs, Survives;
    KeysArePlain(b);
    ReplacementsAreDistinct(b);
    LaterArePlain(b, i);
    BracedValueArrivesExactly(Replacements(b), i);
  }

  // ----- Messages that are not the filled template

  /** Any placeholder in braces, whose value is a key that is listed later: the chain builds that placeholder and
      replaces it, too. */
  lemma NestedBracesDiffer(b: MailBody, i: nat, j: nat)
    requires forall k :: 0 <= k < |KEYS| ==> Plain(Values(b)[k]) && Literal(Values(b)[k])
    requires i < j < |KEYS| && Values(b)[i] == KEYS[j]
    ensures var template := "{" + Placeholder(KEYS[i]) + "}";
            && Html(Some(template), b) == Values(b)[j]
            && Fill(template, Replacements(b)) == Placeholder(KEYS[j])
  {
    hide Values, Html, Fill, Resolve, Lookup, Index, DistinctKeys, Plain, Literal;
    var pairs := Replacements(b);
    ReplacementsAreDistinct(b);
    IndexIsPlace(pairs, i);
    IndexIsPlace(pairs, j);
    KeyHasNoBrace(i);
    KeyHasNoBrace(j);
    HtmlIsOnePass(Some("{" + Placeholder(KEYS[i]) + "}"), b);
    NestedResolves(KEYS[i], KEYS[j], pairs);
  }

  /** Any value that ends in a placeholder that is listed later: the message holds that placeholder's value. */
  lemma ValueBringsAnother(b: MailBody, i: nat, j: nat, w: string)
    requires i < j < |KEYS| && Values(b)[i] == w + Placeholder(KEYS[j]) && '{' !in w && Literal(Values(b)[i])
    requires forall k :: i < k < |KEYS| ==> Plain(Values(b)[k]) && Literal(Values(b)[k])
    ensures Html(Some(Placeholder(KEYS[i])), b) == w + Values(b)[j]
    ensures Fill(Placeholder(KEYS[i]), Replacements(b)) == w + Placeholder(KEYS[j])
  {
    hide Values, Chain, Fill, DistinctKeys, Plain, Literal, PlainKeys, PlainPairs;
    KeysArePlain(b);
    ReplacementsAreDistinct(b);
    LaterArePlain(b, i);
    ValueBringsPlaceholder(Replacements(b), i, j, w);
  }

  /** Thus the name `A{password}`, on the template `{name}`, shows the password. */
  lemma NameShowsPassword(b: MailBody)
    requires b.fullname == Some("A{password}")
    requires forall k :: 6 < k < |KEYS| ==> Plain(Values(b)[k]) && Literal(Values(b)[k])
    ensures Html(Some("{name}"), b) == "A" + b.password.GetOr("")
  {
    hide Html, Plain, Literal;
    assert Values(b)[6] == "A{password}" == "A" + Placeholder(KEYS[14]) && Placeholder(KEYS[6]) == "{name}";
    NoDollarIsLiteral(Values(b)[6]);
    ValueBringsAnother(b, 6, 14, "A");
  }
}
