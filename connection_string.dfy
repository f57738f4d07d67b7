/** `SessionHandler#parse_connection_string` and `#parse_host_port`
    (lib/ooor/session_handler.rb): a descriptor such as
    `ooor://user:pw@host:8069/db -s` is rewritten step by step, then split on
    `@`, `/`, `:` and `.` into the hash `{url:, username:, database:,
    password:}`. The parser is a pure function of the descriptor. */
module ConnectionString {
  import opened Values
  import opened RubyText

  /** The endpoint and credentials the parser has read out of a descriptor
      string, before they are emitted as a hash. */
  datatype Endpoint = Endpoint(
    ssl: bool,
    host: string,
    port: int,
    username: string,
    database: Option<string>,
    password: Option<string>)

  /** `parse_host_port`'s pair; the host is `nil` when `split(':')` has no
      first field. */
  datatype HostPort = HostPort(host: Option<string>, port: int)

  /** The descriptor once the SSL markers are removed, and whether one was. */
  datatype Stripped = Stripped(text: string, ssl: bool)

  /** Prefix normalisation: `ooor://` without credentials becomes `@`, then a
      leading `http://` and up to two leading `ooor:` go, then the first `//`. */
  function Normalize(cs: string): string {
    var a := if StartsWith(cs, "ooor://") && '@' !in cs then Sub(cs, "ooor://", "@", true) else cs;
    var b := Sub(a, "http://", "", true);
    var c := Sub(b, "ooor:", "", true);
    var d := Sub(c, "ooor:", "", true);
    Sub(d, "//", "", false)
  }

  /** The text once every `?ssl=true` and then every `ssl=true` is removed. */
  function WithoutSslQuery(s: string): string {
    if Contains(s, "ssl=true") then RemoveAll(RemoveAll(s, "?ssl=true"), "ssl=true") else s
  }

  /** The SSL markers. `ssl=true` with no `?ssl=true` anywhere makes the first
      `gsub!` return nil, and the second is then called on nil. */
  function StripSsl(s: string): Result<Stripped> {
    if Contains(s, "ssl=true") && !Contains(s, "?ssl=true") then
      Raise(NoMethodOnNil("gsub!"))
    else
      var t := WithoutSslQuery(s);
      if Contains(t, " -s") then Ok(Stripped(RemoveAll(t, " -s"), true))
      else Ok(Stripped(t, Contains(s, "ssl=true")))
  }

  /** `parse_host_port`: with a `:`, the first two fields of `split(':')`,
      the second through `to_i`; without one, the whole segment and port 80. */
  function ParseHostPort(hp: string): HostPort {
    if ':' in hp then
      var f := Split(hp, ':');
      HostPort(Nth(f, 0), OptToI(Nth(f, 1)))
    else
      HostPort(Some(hp), 80)
  }

  /** The username, or `admin` when it is nil or blank. */
  function AdminIfBlank(username: Option<string>): string {
    if Blank(username) then "admin" else username.value
  }

  /** The defaults and the SSL reconciliation. `port ||= 8069` has no effect:
      `parse_host_port` always returns an Integer, and every Integer is truthy. */
  function Finish(ssl: bool, hp: HostPort, username: Option<string>,
                  database: Option<string>, password: Option<string>): Endpoint
  {
    Endpoint(
      ssl || hp.port == 443,
      if hp.host.None? then "localhost" else hp.host.value,
      hp.port,
      AdminIfBlank(username),
      database,
      password)
  }

  /** The credentials read from the text before the first `@`. */
  datatype Creds = Creds(username: Option<string>, database: Option<string>, password: Option<string>)

  /** `user:password`; else `user.database` when `/` gave no database; else
      the whole text is the username. */
  function Credentials(left: string, database: Option<string>): Creds {
    if ':' in left then
      var up := Split(left, ':');
      Creds(Nth(up, 0), database, Nth(up, 1))
    else if '.' in left && database.None? then
      var ud := Split(left, '.');
      Creds(Nth(ud, 0), Nth(ud, 1), None)
    else
      Creds(Some(left), database, None)
  }

  /** The `@` branch, given `parts[0]` and `parts[1]` of `split('@')`. */
  function ParseCredentials(left: string, right: string, ssl: bool): Result<Endpoint> {
    var rp := Split(right, '/');
    var segment := if '/' in right then Nth(rp, 0) else Some(right);
    var database := if '/' in right then Nth(rp, 1) else None;
    if segment.None? then
      Raise(NoMethodOnNil("index"))
    else
      var creds := Credentials(left, database);
      Ok(Finish(ssl, ParseHostPort(segment.value), creds.username, creds.database, creds.password))
  }

  /** Everything after the SSL markers. `split('@')` with fewer than two
      fields leaves `right` nil, and `right.index` raises. */
  function ParseBody(s: string, ssl: bool): Result<Endpoint> {
    if '@' in s then
      var parts := Split(s, '@');
      if |parts| < 2 then Raise(NoMethodOnNil("index"))
      else ParseCredentials(parts[0], parts[1], ssl)
    else
      Ok(Finish(ssl, ParseHostPort(s), None, None, None))
  }

  function ParseDescriptor(cs: string): Result<Endpoint> {
    match StripSsl(Normalize(cs))
    case Raise(e) => Raise(e)
    case Ok(st) => ParseBody(st.text, st.ssl)
  }

  function Scheme(ssl: bool): string {
    if ssl then "https" else "http"
  }

  /** The url of an endpoint: the scheme, `://`, the host, `:` and the port
      in decimal. */
  function Url(d: Endpoint): string {
    Scheme(d.ssl) + "://" + d.host + ":" + IntToS(d.port)
  }

  /** The hash without its nil entries. */
  function Emit(d: Endpoint): Hash {
    var h := map["url" := Str(Url(d)), "username" := Str(d.username)];
    var h' := if d.database.Some? then h["database" := Str(d.database.value)] else h;
    if d.password.Some? then h'["password" := Str(d.password.value)] else h'
  }

  /** `parse_connection_string(cs)`. */
  function ParseConnectionString(cs: string): Result<Hash> {
    match ParseDescriptor(cs)
    case Raise(e) => Raise(e)
    case Ok(d) => Ok(Emit(d))
  }

  // ---- Output shape --------------------------------------------------------

  /** A blank username has become `admin`. */
  lemma UsernameNotBlank(s: string, ssl: bool)
    requires ParseBody(s, ssl).Ok?
    ensures !Blank(Some(ParseBody(s, ssl).value.username))
  {
    assert !IsUnicodeSpace("admin"[0]);
  }

  /** The hash holds `url` and `username`, and `database` and `password`
      exactly when they were found, each with the value found. */
  lemma EmitShape(d: Endpoint)
    ensures var h := Emit(d);
      && h.Keys <= {"url", "username", "database", "password"}
      && "url" in h && h["url"] == Str(Url(d))
      && "username" in h && h["username"] == Str(d.username)
      && ("database" in h <==> d.database.Some?)
      && (d.database.Some? ==> h["database"] == Str(d.database.value))
      && ("password" in h <==> d.password.Some?)
      && (d.password.Some? ==> h["password"] == Str(d.password.value))
      && (forall k | k in h :: h[k].Str?)
  {
  }

  /** The hash always has a String `url` and a non-blank String `username`;
      `database` and `password` are present exactly when found, with the
      values found, and no entry is nil. */
  lemma OutputShape(cs: string)
    ensures ParseConnectionString(cs).Ok? <==> ParseDescriptor(cs).Ok?
    ensures ParseConnectionString(cs).Ok? ==>
      var h := ParseConnectionString(cs).value;
      var d := ParseDescriptor(cs).value;
      && h.Keys <= {"url", "username", "database", "password"}
      && "url" in h && h["url"] == Str(Url(d))
      && "username" in h && h["username"] == Str(d.username) && !Blank(Some(d.username))
      && ("database" in h <==> d.database.Some?)
      && (d.database.Some? ==> h["database"] == Str(d.database.value))
      && ("password" in h <==> d.password.Some?)
      && (d.password.Some? ==> h["password"] == Str(d.password.value))
      && (forall k | k in h :: h[k].Str?)
  {
    if ParseDescriptor(cs).Ok? {
      var st := StripSsl(Normalize(cs)).value;
      UsernameNotBlank(st.text, st.ssl);
      EmitShape(ParseDescriptor(cs).value);
    }
  }

  // ---- Host and port -------------------------------------------------------

  /** A segment without `:` is all host and port 80; with one, the host is
      the text before the first `:` (nil only for a segment of colons alone)
      and the port is `to_i` of the text up to the next `:`. */
  lemma HostPortRule(hp: string)
    ensures ':' !in hp ==> ParseHostPort(hp) == HostPort(Some(hp), 80)
    ensures ':' in hp ==>
      && ParseHostPort(hp).host == (if HasOther(hp, ':') then Some(Before(hp, ':')) else None)
      && ParseHostPort(hp).port == ToI(Before(After(hp, ':'), ':'))
  {
    if ':' in hp {
      SplitFirstTwo(hp, ':');
    }
  }

  /** The host `parse_host_port` returns never holds a `:`. */
  lemma HostPortHostNoColon(hp: string)
    ensures ParseHostPort(hp).host.Some? ==> ':' !in ParseHostPort(hp).host.value
  {
    HostPortRule(hp);
    if ':' in hp && HasOther(hp, ':') {
      BeforeHasNoSep(hp, ':');
    }
  }

  lemma CredentialsHostNoColon(left: string, right: string, ssl: bool)
    requires ParseCredentials(left, right, ssl).Ok?
    ensures ':' !in ParseCredentials(left, right, ssl).value.host
  {
    var rp := Split(right, '/');
    var segment := if '/' in right then Nth(rp, 0) else Some(right);
    HostPortHostNoColon(segment.value);
  }

  lemma BodyHostHasNoColon(s: string, ssl: bool)
    requires ParseBody(s, ssl).Ok?
    ensures ':' !in ParseBody(s, ssl).value.host
  {
    if '@' in s {
      var parts := Split(s, '@');
      CredentialsHostNoColon(parts[0], parts[1], ssl);
    } else {
      HostPortHostNoColon(s);
    }
  }

  /** The parsed host never holds a `:`. */
  lemma HostHasNoColon(cs: string)
    requires ParseDescriptor(cs).Ok?
    ensures ':' !in ParseDescriptor(cs).value.host
  {
    var st := StripSsl(Normalize(cs)).value;
    BodyHostHasNoColon(st.text, st.ssl);
  }

  // ---- The url round trip --------------------------------------------------

  /** How a reader takes a url apart: the scheme before the first `:`, then
      `//`, the host up to the next `:`, and `to_i` of the rest as the port. */
  function UrlEndpoint(url: string): Option<(string, string, int)> {
    if ':' !in url then None
    else
      var rest := After(url, ':');
      if !StartsWith(rest, "//") then None
      else
        var hp := rest[2..];
        if ':' !in hp then None
        else Some((Before(url, ':'), Before(hp, ':'), ToI(After(hp, ':'))))
  }

  /** Reading a url back: the scheme, the host and the text after the host's
      `:`. */
  lemma UrlSplit(scheme: string, host: string, digits: string)
    requires ':' !in scheme && ':' !in host
    ensures UrlEndpoint(scheme + "://" + host + ":" + digits) == Some((scheme, host, ToI(digits)))
  {
    var hp := host + [':'] + digits;
    var rest := "//" + hp;
    var url := scheme + "://" + host + ":" + digits;
    assert url == scheme + [':'] + rest;
    BeforeAfterSplice(scheme, rest, ':');
    assert StartsWith(rest, "//") && rest[2..] == hp;
    BeforeAfterSplice(host, digits, ':');
    assert ':' in hp;
  }

  /** The url gives back the scheme, host and port it was built from. */
  lemma UrlRoundTrip(d: Endpoint)
    requires ':' !in d.host
    ensures UrlEndpoint(Url(d)) == Some((Scheme(d.ssl), d.host, d.port))
  {
    UrlSplit(Scheme(d.ssl), d.host, IntToS(d.port));
    ToIOfIntToS(d.port);
  }

  /** Whatever the descriptor, the emitted url recovers the parsed host and
      port. */
  lemma ParsedUrlRoundTrip(cs: string)
    requires ParseDescriptor(cs).Ok?
    ensures var d := ParseDescriptor(cs).value;
            UrlEndpoint(Url(d)) == Some((Scheme(d.ssl), d.host, d.port))
  {
    HostHasNoColon(cs);
    UrlRoundTrip(ParseDescriptor(cs).value);
  }

  // ---- SSL and errors ------------------------------------------------------

  /** A step of `SchemeRule`: the flag `StripSsl` reports. */
  lemma StripSslFlag(n: string)
    requires StripSsl(n).Ok?
    ensures StripSsl(n).value.ssl <==> Contains(n, "ssl=true") || Contains(WithoutSslQuery(n), " -s")
  {
  }

  /** A step of `SchemeRule`: the flag the body parse reports. */
  lemma BodySsl(s: string, ssl: bool)
    requires ParseBody(s, ssl).Ok?
    ensures ParseBody(s, ssl).value.ssl <==> ssl || ParseBody(s, ssl).value.port == 443
  {
  }

  /** The scheme is `https` exactly when `ssl=true` was present, ` -s` was
      present once it was removed, or the port is 443. */
  lemma SchemeRule(cs: string)
    requires ParseDescriptor(cs).Ok?
    ensures var n := Normalize(cs);
            ParseDescriptor(cs).value.ssl <==>
              Contains(n, "ssl=true") || Contains(WithoutSslQuery(n), " -s")
              || ParseDescriptor(cs).value.port == 443
  {
    var n := Normalize(cs);
    StripSslFlag(n);
    var st := StripSsl(n).value;
    BodySsl(st.text, st.ssl);
  }

  /** The parser raises exactly when `ssl=true` appears without `?ssl=true`,
      when nothing but `@`s follows the first `@`, or when the text between
      the first two `@`s has a `/` and nothing but slashes. */
  lemma ErrorCases(cs: string)
    ensures var n := Normalize(cs);
      ParseDescriptor(cs).Raise? <==>
        || (Contains(n, "ssl=true") && !Contains(n, "?ssl=true"))
        || (var s := StripSsl(n).value.text;
            && '@' in s
            && var right := Before(After(s, '@'), '@');
               !HasOther(After(s, '@'), '@') || ('/' in right && !HasOther(right, '/')))
  {
    var n := Normalize(cs);
    if StripSsl(n).Ok? {
      var st := StripSsl(n).value;
      if '@' in st.text {
        AtSplit(st.text, st.ssl);
      } else {
        NoAtSign(st.text, st.ssl);
      }
    }
  }

  // ---- The `@` split -----------------------------------------------------

  /** Only the text before the first `@` (`left`) and between the first and
      the second `@` (`right`) is read. A `/` in `right` makes the text up to
      the next `/` the database and the text before it host[:port]; a `:` in
      `left` gives username and password; otherwise `user.db` splits in two
      only when `/` gave no database; otherwise `left` is the username. It
      raises when no text follows the first `@`, or when `right` has a `/` and
      nothing but slashes. */
  lemma AtSplit(s: string, ssl: bool)
    requires '@' in s
    ensures var rest := After(s, '@');
            var left := Before(s, '@');
            var right := Before(rest, '@');
            var segment := if '/' in right then Before(right, '/') else right;
            var database := if '/' in right then SecondField(right, '/') else None;
            var hp := ParseHostPort(segment);
      && (ParseBody(s, ssl).Raise? <==> !HasOther(rest, '@') || ('/' in right && !HasOther(right, '/')))
      && (ParseBody(s, ssl).Ok? ==>
          var d := ParseBody(s, ssl).value;
          && d.port == hp.port
          && d.host == (if hp.host.Some? then hp.host.value else "localhost")
          && d.ssl == (ssl || hp.port == 443)
          && (':' in left ==>
                && d.username == AdminIfBlank(FirstField(left, ':'))
                && d.password == SecondField(left, ':')
                && d.database == database)
          && (':' !in left && '.' in left && database.None? ==>
                && d.username == AdminIfBlank(FirstField(left, '.'))
                && d.database == SecondField(left, '.')
                && d.password == None)
          && (':' !in left && !('.' in left && database.None?) ==>
                && d.username == AdminIfBlank(Some(left))
                && d.database == database
                && d.password == None))
  {
    var parts := Split(s, '@');
    SplitFirstTwo(s, '@');
    FieldsHead(s, '@');
    DropTrailingEmptySpec(Fields(s, '@'));
    var rest := After(s, '@');
    var left := Before(s, '@');
    var right := Before(rest, '@');
    if HasOther(rest, '@') {
      assert parts[0] == Fields(s, '@')[0] == left;
      assert parts[1] == right;
      SplitFirstTwo(right, '/');
      SplitFirstTwo(left, ':');
      SplitFirstTwo(left, '.');
      if '/' in right && HasOther(right, '/') {
        assert Nth(Split(right, '/'), 0) == Some(Before(right, '/'));
      }
    }
  }

  /** Without `@` there are no credentials: the username is `admin` and
      neither database nor password is found; the whole text is the host
      segment, and its host is `localhost` when `parse_host_port` finds
      none. */
  lemma NoAtSign(s: string, ssl: bool)
    requires '@' !in s
    ensures ParseBody(s, ssl).Ok?
    ensures var d := ParseBody(s, ssl).value;
            var hp := ParseHostPort(s);
      && d.username == "admin" && d.database == None && d.password == None
      && d.host == (if hp.host.Some? then hp.host.value else "localhost")
      && d.port == hp.port
      && d.ssl == (ssl || d.port == 443)
  {
  }

  /** A body of a lone `:` has no host, so it becomes `localhost`, with port
      0 from `nil.to_i`. */
  lemma ColonAloneIsLocalhost(ssl: bool)
    ensures ParseBody(":", ssl) == Ok(Endpoint(ssl, "localhost", 0, "admin", None, None))
  {
  }

  // ---- Prefixes ----------------------------------------------------------

  /** `ooor://` without `@` reads as `@` followed by the rest. */
  lemma OoorWithoutAtIsAt(r: string)
    requires '@' !in r
    ensures Normalize("ooor://" + r) == Normalize("@" + r)
  {
    var cs := "ooor://" + r;
    assert '@' !in cs by {
      assert forall i | 0 <= i < |cs| :: cs[i] == if i < 7 then "ooor://"[i] else r[i - 7];
    }
    assert cs[..7] == "ooor://";
    SubAtStart(cs, "ooor://", "@", true);
    assert cs[7..] == r;
    assert ("@" + r)[0] == '@';
  }

  /** A string `@` + text without `@`. */
  predicate AtThenNoAt(s: string) {
    |s| > 0 && s[0] == '@' && '@' !in s[1..]
  }

  lemma ErasureKeepsAtThenNoAt(s: string, t: string)
    requires AtThenNoAt(s) && |t| > 0 && t[0] == '@' && multiset(t) <= multiset(s)
    ensures AtThenNoAt(t)
  {
    assert s == [s[0]] + s[1..];
    assert t == [t[0]] + t[1..];
    assert multiset(s)['@'] == 1;
    assert multiset(t[1..])['@'] == 0;
  }

  lemma SubKeepsAtThenNoAt(s: string, p: string, anchored: bool)
    requires AtThenNoAt(s) && p != [] && p[0] != '@'
    ensures AtThenNoAt(Sub(s, p, "", anchored))
  {
    SubKeepsHead(s, p, anchored);
    SubErases(s, p, anchored);
    ErasureKeepsAtThenNoAt(s, Sub(s, p, "", anchored));
  }

  lemma RemoveAllKeepsAtThenNoAt(s: string, p: string)
    requires AtThenNoAt(s) && p != [] && p[0] != '@'
    ensures AtThenNoAt(RemoveAll(s, p))
  {
    RemoveAllKeepsHead(s, p);
    RemoveAllErases(s, p);
    ErasureKeepsAtThenNoAt(s, RemoveAll(s, p));
  }

  lemma NormalizeKeepsAtThenNoAt(a: string)
    requires AtThenNoAt(a)
    ensures AtThenNoAt(Normalize(a))
  {
    assert !StartsWith(a, "ooor://");
    var b := Sub(a, "http://", "", true);
    SubKeepsAtThenNoAt(a, "http://", true);
    var c := Sub(b, "ooor:", "", true);
    SubKeepsAtThenNoAt(b, "ooor:", true);
    var d := Sub(c, "ooor:", "", true);
    SubKeepsAtThenNoAt(c, "ooor:", true);
    SubKeepsAtThenNoAt(d, "//", false);
  }

  lemma StripSslKeepsAtThenNoAt(n: string)
    requires AtThenNoAt(n) && StripSsl(n).Ok?
    ensures AtThenNoAt(StripSsl(n).value.text)
  {
    var t := WithoutSslQuery(n);
    if Contains(n, "ssl=true") {
      RemoveAllKeepsAtThenNoAt(n, "?ssl=true");
      RemoveAllKeepsAtThenNoAt(RemoveAll(n, "?ssl=true"), "ssl=true");
    }
    if Contains(t, " -s") {
      RemoveAllKeepsAtThenNoAt(t, " -s");
    }
  }

  lemma BodyOfAtThenNoAt(s: string, ssl: bool)
    requires AtThenNoAt(s) && ParseBody(s, ssl).Ok?
    ensures ParseBody(s, ssl).value.username == "admin"
    ensures ParseBody(s, ssl).value.password == None
  {
    assert s == [] + ['@'] + s[1..];
    FieldsSplice([], s[1..], '@');
    FieldsOfPlain(s[1..], '@');
    DropTrailingEmptySpec(Fields(s, '@'));
    assert Split(s, '@')[0] == [];
  }

  /** Without credentials, `ooor://host...` always gets the username `admin`
      and no password. */
  lemma OoorWithoutAtIsAdmin(r: string)
    requires '@' !in r
    requires ParseDescriptor("ooor://" + r).Ok?
    ensures ParseDescriptor("ooor://" + r).value.username == "admin"
    ensures ParseDescriptor("ooor://" + r).value.password == None
  {
    OoorWithoutAtIsAt(r);
    var a := "@" + r;
    assert AtThenNoAt(a) by { assert a[1..] == r; }
    NormalizeKeepsAtThenNoAt(a);
    var n := Normalize(a);
    StripSslKeepsAtThenNoAt(n);
    var st := StripSsl(n).value;
    BodyOfAtThenNoAt(st.text, st.ssl);
  }

  /** A line-start anchored pattern can only match at 0 in a text without
      newlines. */
  lemma AnchoredOnlyAtZero(s: string, p: string)
    requires '\n' !in s && !StartsWith(s, p)
    ensures Sub(s, p, "", true) == s
  {
    forall i | 0 <= i <= |s| ensures !MatchAt(s, p, i, true) {
      if 0 < i <= |s| { assert s[i - 1] != '\n'; }
    }
    SubNoMatch(s, p, "", true);
  }

  /** An unanchored pattern that does not occur is not replaced. */
  lemma AbsentNotReplaced(s: string, p: string)
    requires !Contains(s, p)
    ensures Sub(s, p, "", false) == s
  {
    ContainsOccurs(s, p);
    SubNoMatch(s, p, "", false);
  }

  /** A single line with no `//` that starts with neither `http://` nor
      `ooor:` is left alone by normalisation. */
  lemma NormalizeUntouched(s: string)
    requires '\n' !in s && !Contains(s, "//")
    requires !StartsWith(s, "http://") && !StartsWith(s, "ooor:")
    ensures Normalize(s) == s
  {
    assert !StartsWith(s, "ooor://") by {
      if |s| >= 7 { assert s[..7][..5] == s[..5]; }
    }
    AnchoredOnlyAtZero(s, "http://");
    AnchoredOnlyAtZero(s, "ooor:");
    AbsentNotReplaced(s, "//");
  }

  lemma NoNewlineAfterPrefix(p: string, r: string)
    requires '\n' !in p && '\n' !in r
    ensures '\n' !in p + r
  {
    var cs := p + r;
    forall i | 0 <= i < |cs| ensures cs[i] != '\n' {
      if i >= |p| { assert cs[i] == r[i - |p|]; } else { assert cs[i] == p[i]; }
    }
  }

  /** The `ooor:` of `ooor://rest` is taken off, and with it the `//`. */
  lemma OoorColonSteps(r: string)
    requires '\n' !in r
    ensures var c := Sub(Sub("ooor://" + r, "http://", "", true), "ooor:", "", true);
            Sub(Sub(c, "ooor:", "", true), "//", "", false) == r
  {
    var cs := "ooor://" + r;
    NoNewlineAfterPrefix("ooor://", r);
    assert !StartsWith(cs, "http://") by { assert cs[..7][0] == 'o'; }
    AnchoredOnlyAtZero(cs, "http://");
    assert cs[..5] == "ooor:";
    SubAtStart(cs, "ooor:", "", true);
    var c := cs[5..];
    assert Sub(cs, "ooor:", "", true) == "" + c == c;
    assert c == "//" + r;
    NoNewlineAfterPrefix("//", r);
    assert !StartsWith(c, "ooor:") by {
      if |c| >= 5 { assert c[..5][0] == '/'; }
    }
    AnchoredOnlyAtZero(c, "ooor:");
    SubAtStart(c, "//", "", false);
    assert c[2..] == r;
    assert Sub(c, "//", "", false) == "" + r == r;
  }

  /** With an `@` present, `ooor://` is removed outright. */
  lemma NormalizeDropsOoorPrefix(r: string)
    requires '@' in r && '\n' !in r
    ensures Normalize("ooor://" + r) == r
  {
    var cs := "ooor://" + r;
    assert '@' in cs by { var i :| 0 <= i < |r| && r[i] == '@'; assert cs[i + 7] == '@'; }
    OoorColonSteps(r);
  }

  /** With credentials, the `ooor://` prefix is dropped: the rest parses as
      if it had been given alone, provided the rest is a single line that does
      not itself start with `http://` or `ooor:` and holds no `//`. */
  lemma OoorPrefixDropped(r: string)
    requires '@' in r && '\n' !in r && !Contains(r, "//")
    requires !StartsWith(r, "http://") && !StartsWith(r, "ooor:")
    ensures ParseDescriptor("ooor://" + r) == ParseDescriptor(r)
  {
    NormalizeDropsOoorPrefix(r);
    NormalizeUntouched(r);
  }

  // ---- host:port descriptors -----------------------------------------------

  /** A character of a DNS-style host name. */
  predicate IsHostChar(ch: char) {
    ('a' <= ch <= 'z') || ('A' <= ch <= 'Z') || IsDigit(ch) || ch == '.' || ch == '-'
  }

  predicate IsHostName(h: string) {
    forall i | 0 <= i < |h| :: IsHostChar(h[i])
  }

  /** A text of host-name characters and colons, not starting with `ooor:`,
      is left alone by normalisation and holds no SSL marker. */
  lemma PlainHostPortUntouched(cs: string)
    requires forall i | 0 <= i < |cs| :: IsHostChar(cs[i]) || cs[i] == ':'
    requires !StartsWith(cs, "ooor:")
    ensures Normalize(cs) == cs
    ensures StripSsl(cs) == Ok(Stripped(cs, false))
  {
    assert '/' !in cs && '\n' !in cs && '=' !in cs && ' ' !in cs;
    assert !StartsWith(cs, "ooor://") && !StartsWith(cs, "http://") by {
      if |cs| >= 7 { assert cs[..7][5] == cs[5] != '/'; }
    }
    AnchoredOnlyAtZero(cs, "http://");
    AnchoredOnlyAtZero(cs, "ooor:");
    NotContainsByChar(cs, "//", 0);
    SubNoMatch(cs, "//", "", false) by {
      ContainsOccurs(cs, "//");
    }
    NotContainsByChar(cs, "ssl=true", 3);
    NotContainsByChar(cs, " -s", 0);
  }

  lemma BodyOfHostPort(h: string, digits: string)
    requires ':' !in h && ':' !in digits && '@' !in h && '@' !in digits && digits != []
    ensures ParseBody(h + ":" + digits, false) ==
            Ok(Endpoint(ToI(digits) == 443, h, ToI(digits), "admin", None, None))
  {
    var cs := h + ":" + digits;
    assert cs == h + [':'] + digits;
    assert '@' !in cs;
    FieldsSplice(h, digits, ':');
    FieldsOfPlain(digits, ':');
    assert Split(cs, ':') == [h, digits];
  }

  /** `host:port` parses to that host and port, user `admin`, and the url
      gives both back. (`ooor:port` is the exception: its `ooor:` is a prefix.) */
  lemma HostPortDescriptor(h: string, n: nat)
    requires IsHostName(h) && h != "ooor"
    ensures var cs := h + ":" + IntToS(n);
      && ParseDescriptor(cs) == Ok(Endpoint(n == 443, h, n, "admin", None, None))
      && UrlEndpoint(Url(ParseDescriptor(cs).value)) == Some((Scheme(n == 443), h, n))
  {
    var digits := IntToS(n);
    var cs := h + ":" + digits;
    assert cs == h + [':'] + digits;
    forall i | 0 <= i < |cs| ensures IsHostChar(cs[i]) || cs[i] == ':' {
      if i > |h| { assert cs[i] == digits[i - |h| - 1]; }
    }
    assert ':' !in h && '@' !in h by {
      forall i | 0 <= i < |h| ensures h[i] != ':' && h[i] != '@' { assert IsHostChar(h[i]); }
    }
    assert !StartsWith(cs, "ooor:") by {
      if |cs| >= 5 {
        if |h| < 4 { assert cs[..5][|h|] == ':' != "ooor:"[|h|]; }
        else if |h| > 4 { assert cs[..5][4] == h[4] != ':'; }
        else { assert cs[..5][..4] == h != "ooor"; }
      }
    }
    PlainHostPortUntouched(cs);
    BodyOfHostPort(h, digits);
    ToIOfIntToS(n);
    UrlRoundTrip(Endpoint(n == 443, h, n, "admin", None, None));
  }

  /** The hash for `host:port`: a url with that host and port, `https`
      exactly for port 443, and the username `admin`. */
  lemma HostPortConnectionString(h: string, n: nat)
    requires IsHostName(h) && h != "ooor"
    ensures ParseConnectionString(h + ":" + IntToS(n)) ==
            Ok(map["url" := Str(Scheme(n == 443) + "://" + h + ":" + IntToS(n)),
                   "username" := Str("admin")])
  {
    HostPortDescriptor(h, n);
  }
}
