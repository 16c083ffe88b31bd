/** Options and URLs that do not survive printing and parsing. */
module ConnectionUrlExamples {
  import opened Options
  import opened Regex
  import opened ConnectionString
  import opened ConnectionUrl

  const COLON_IN_PASSWORD :=
    MongoOptions(None, "mongodb", Some("u"), Some("a:b"), Some("h"), Some(27017), Some("d"))

  const AT_IN_HOST :=
    MongoOptions(None, "mongodb", None, None, Some("x@y"), Some(27017), Some("d"))

  /** The password `a:b` comes back as something else. */
  lemma ColonEndsPassword()
    ensures Parse(BuildUrl(COLON_IN_PASSWORD)) != Ok(Expected(COLON_IN_PASSWORD))
  {
    hide BuildUrl, Parse, Expected;
    var o := COLON_IN_PASSWORD;
    assert HasCredentials(o) && o.password.value[1] == ':';
    assert !CleanCredential(o.password.value);
    RoundTripExactly(o);
  }

  /** The host `x@y` without credentials is read as a user and a host. */
  lemma AtEndsCredentials()
    ensures Parse(BuildUrl(AT_IN_HOST)) != Ok(Expected(AT_IN_HOST))
  {
    hide BuildUrl, Parse, Expected;
    var o := AT_IN_HOST;
    assert !HasCredentials(o) && Host(o) == "x@y" && Host(o)[1] == '@' && Host(o)[0] == 'x';
    RoundTripExactly(o);
  }

  lemma UrlWithoutPort()
    ensures Parse("mongodb://u:p@h/d") ==
            Ok(Config(Some("mongodb"), Some("u"), Some("p"), Some("h"), None, Some("d")))
  {
    hide Parse, Split, RunEnd;
    ParseWithCredentials("mongodb", "u", "p", "h", "d");
    SplitPortWithoutColon("h", 0, 0);
    assert "mongodb" + "://" + ("u" + ":" + "p" + "@") + "h" + "/" + "d" == "mongodb://u:p@h/d";
    assert "h"[0..] == "h";
  }

  /** A URL without a port is not rebased: the missing port is printed as a word of the host. */
  lemma PortIsInvented(dbName: string)
    ensures Parse("mongodb://u:p@h/d").Ok?
    ensures var c := Parse("mongodb://u:p@h/d").config;
            Parse(BuildTestDbUrl(c, dbName)) != Ok(Rebased(c, dbName))
  {
    hide Parse, BuildTestDbUrl, Rebased;
    UrlWithoutPort();
    RebaseExactly("mongodb://u:p@h/d", dbName);
  }
}
