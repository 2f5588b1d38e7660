/** What a URL with given parts is read into, told without reading it. */
module UriFields {
  import opened CStrings
  import opened Chars
  import opened Options
  import opened Seqs
  import opened Uris

  /** s holds none of these characters. */
  predicate Without(s: string, stops: string) {
    forall c :: c in s ==> c !in stops
  }

  datatype Port = NoPort | EmptyPort | Number(n: nat)

  datatype User = NoUser | Name(name: string) | NameAndPassword(name: string, password: string)

  /** A number in decimal. */
  function Decimal(n: nat): (r: string)
    ensures r != ""
  {
    (if n < 10 then "" else Decimal(n / 10)) + ['0' + (n % 10) as char]
  }

  function PortDigits(port: Port): string {
    match port case Number(n) => Decimal(n) case _ => ""
  }

  function UserText(user: User): string {
    match user
    case NoUser => ""
    case Name(name) => name + "@"
    case NameAndPassword(name, password) => name + ":" + password + "@"
  }

  function HostText(host: string, port: Port): string {
    host + if port.NoPort? then "" else ":" + PortDigits(port)
  }

  function Ending(path: string, query: Option<string>, fragment: Option<string>): string {
    path + (match query case None => "" case Some(q) => "?" + q)
    + match fragment case None => "" case Some(f) => "#" + f
  }

  predicate CleanUser(user: User) {
    match user
    case NoUser => true
    case Name(name) => Without(name, ":/?#")
    case NameAndPassword(name, password) => Without(name, ":/?#") && Without(password, "/?#")
  }

  predicate CleanHost(host: string, port: Port) {
    Without(host, ":@/?#") && (port.Number? ==> port.n < 0x1_0000_0000)
  }

  predicate CleanEnding(path: string, query: Option<string>) {
    Without(path, "?#") && (query.Some? ==> Without(query.value, "#"))
  }

  // ----- path, query and fragment -----------------------------------------

  lemma PathEnds(t: string, path: string)
    requires path <= t && Without(path, "?#") && (|path| < |t| ==> PathStop(t[|path|]))
    ensures Until(t, 0, PathStop) == |path|
  {
    hide Until;
    forall k | 0 <= k < |path|
      ensures !PathStop(t[k])
    {
      assert t[k] == path[k] && path[k] in path;
    }
    UntilIs(t, 0, |path|, PathStop);
  }

  lemma TailFound(p: Parts, path: string, query: Option<string>, fragment: Option<string>)
    requires CleanEnding(path, query) && Untailed(p)
    ensures ReadTail(p, Ending(path, query, fragment)) ==
              p.(path := path,
                 query := if query.Some? then query.value else "", hasQuery := query.Some?,
                 fragment := if fragment.Some? then fragment.value else "", hasFragment := fragment.Some?)
  {
    hide Until, StrChr;
    var t := Ending(path, query, fragment);
    assert t[..|path|] == path;
    PathEnds(t, path);
    match query
    case Some(q) =>
      var rest := t[|path|+1..];
      match fragment {
        case Some(f) =>
          assert rest == q + ("#" + f);
          assert rest[..|q|] == q && rest[|q|+1..] == f;
          FirstIs(rest, '#', |q|);
        case None =>
          assert rest == q;
          NowhereIs(rest, '#');
      }
    case None =>
      if fragment.Some? {
        assert t[|path|+1..] == fragment.value;
      }
  }

  // ----- the port ---------------------------------------------------------

  lemma {:induction false} DecimalDigits(n: nat)
    ensures Digits(Decimal(n)) == Some(n) && forall c :: c in Decimal(n) ==> IsDigit(c)
    decreases n
  {
    var s := Decimal(n);
    assert IsDigit(s[|s|-1]) && s[|s|-1] as int - '0' as int == n % 10;
    if n >= 10 {
      DecimalDigits(n / 10);
      assert s[..|s|-1] == Decimal(n / 10);
    } else {
      assert |s| == 1;
    }
  }

  lemma DecimalRead(n: nat)
    requires n < 0x1_0000_0000
    ensures StrToL(Decimal(n)) == Some(n) && PortNumber(n) == n
  {
    hide Digits;
    DecimalDigits(n);
    assert Decimal(n)[0] in Decimal(n);
  }

  lemma HostFound(p: Parts, host: string, port: Port)
    requires CleanHost(host, port) && p.portStr == "" && p.port == 0
    ensures ReadHost(p, HostText(host, port)) ==
              Some(p.(host := host, portStr := PortDigits(port),
                      port := match port case NoPort => 0 case EmptyPort => DefaultPort(p.scheme) case Number(n) => n))
  {
    hide StrChr, StrToL, DefaultPort;
    var t := HostText(host, port);
    if port.NoPort? {
      assert t == host;
      NowhereIs(t, ':');
    } else {
      assert t[..|host|] == host && t[|host|+1..] == PortDigits(port);
      FirstIs(t, ':', |host|);
      if port.Number? {
        DecimalRead(port.n);
      }
    }
  }

  // ----- user and password ------------------------------------------------

  lemma UserFound(p: Parts, user: User, rest: string)
    requires CleanUser(user) && '@' !in rest && p.user == p.password == ""
    ensures HostPort(UserText(user) + rest) == rest
    ensures ReadUser(p, UserText(user) + rest) ==
              match user
              case NoUser => p
              case Name(name) => p.(user := name)
              case NameAndPassword(name, password) => p.(user := name, password := password)
  {
    hide StrChr, StrRChr;
    var t := UserText(user) + rest;
    match user
    case NoUser =>
      assert t == rest;
      NowhereIs(t, '@');
    case Name(name) =>
      assert t[..|name|] == name && t[|name|+1..] == rest;
      LastIs(t, '@', |name|);
      NowhereIs(name, ':');
    case NameAndPassword(name, password) =>
      var info := name + ":" + password;
      assert t[..|info|] == info && t[|info|+1..] == rest && t[|info|] == '@';
      LastIs(t, '@', |info|);
      assert info[..|name|] == name && info[|name|] == ':' && t[|name|+1..|info|] == password;
      FirstIs(info, ':', |name|);
      assert t[..|name|] == name;
  }

  lemma PortChars(port: Port)
    ensures Without(PortDigits(port), ":@/?#")
  {
    if port.Number? {
      DecimalDigits(port.n);
    }
  }

  // ----- the whole URL ----------------------------------------------------

  /** The fields of a URL, from its parts. */
  function FieldsOf(scheme: string, user: User, host: string, port: Port,
                    path: string, query: Option<string>, fragment: Option<string>): Parts
  {
    Parts(scheme, if user.NoUser? then "" else user.name, if user.NameAndPassword? then user.password else "",
          host, PortDigits(port), match port case NoPort => 0 case EmptyPort => DefaultPort(scheme) case Number(n) => n,
          path, if query.Some? then query.value else "", if fragment.Some? then fragment.value else "",
          query.Some?, fragment.Some?)
  }

  /** A URL put together from its parts is read into exactly these. */
  lemma FieldsFound(scheme: string, user: User, host: string, port: Port,
                    path: string, query: Option<string>, fragment: Option<string>)
    requires scheme != "" && IsAlpha(scheme[0]) && Without(scheme, ":/?#")
    requires CleanUser(user) && CleanHost(host, port) && CleanEnding(path, query) && (path != "" ==> path[0] == '/')
    ensures Read(scheme + "://" + (UserText(user) + HostText(host, port)) + Ending(path, query, fragment))
         == Some(FieldsOf(scheme, user, host, port, path, query, fragment))
  {
    hide SchemeEnd, ReadTail, ReadHost, ReadUser, HostPort, StrToL, Until, DefaultPort, Ending;
    var info, t := UserText(user) + HostText(host, port), Ending(path, query, fragment);
    InfoClean(user, host, port);
    EndingBegins(path, query, fragment);
    PartsFound(scheme, info, t);
    UserFound(BLANK.(scheme := scheme), user, HostText(host, port));
    HostFound(ReadUser(BLANK.(scheme := scheme), info), host, port);
    TailFound(ReadHost(ReadUser(BLANK.(scheme := scheme), info), HostText(host, port)).value, path, query, fragment);
  }

  lemma InfoClean(user: User, host: string, port: Port)
    requires CleanUser(user) && CleanHost(host, port)
    ensures forall c :: c in UserText(user) + HostText(host, port) ==> !HostStop(c)
    ensures '@' !in HostText(host, port)
  {
    PortChars(port);
  }

  lemma EndingBegins(path: string, query: Option<string>, fragment: Option<string>)
    requires path != "" ==> path[0] == '/'
    ensures var t := Ending(path, query, fragment); t != "" ==> HostStop(t[0])
  {
  }

  /** Without a scheme there is only a path with its query and fragment. */
  lemma PathFound(path: string, query: Option<string>, fragment: Option<string>)
    requires CleanEnding(path, query) && (path == "" || !IsAlpha(path[0]) || ':' !in path)
    ensures Read(Ending(path, query, fragment)) ==
              Some(BLANK.(path := path,
                          query := if query.Some? then query.value else "", hasQuery := query.Some?,
                          fragment := if fragment.Some? then fragment.value else "", hasFragment := fragment.Some?))
  {
    hide ReadTail, Until, SchemeEnd;
    NoScheme(path, query, fragment);
    TailFound(BLANK, path, query, fragment);
  }

  lemma NoScheme(path: string, query: Option<string>, fragment: Option<string>)
    requires path == "" || !IsAlpha(path[0]) || ':' !in path
    ensures SchemeEnd(Ending(path, query, fragment)).None?
  {
    var t := Ending(path, query, fragment);
    if path != "" && IsAlpha(path[0]) {
      var e := Until(t, 0, SchemeStop);
      assert e < |path| ==> t[e] == path[e] && path[e] in path;
      assert e > |path| ==> SchemeStop(t[|path|]);
      assert e + 3 <= |t| ==> t[e..e+3][0] == t[e];
    }
  }

  /** What is written: no user, and a port only if it is there and not the one
      that the scheme implies. */
  lemma FieldsWritten(scheme: string, user: User, host: string, port: Port,
                      path: string, query: Option<string>, fragment: Option<string>)
    requires scheme != ""
    ensures Text(FieldsOf(scheme, user, host, port, path, query, fragment)) ==
              scheme + "://" + host
              + (if port.Number? && port.n != DefaultPort(scheme) then ":" + Decimal(port.n) else "")
              + Ending(path, query, fragment)
  {
    hide DefaultPort, Decimal;
  }

  // ----- the known schemes ------------------------------------------------

  lemma {:induction false} PortAt(schemes: seq<(string, nat)>, i: nat)
    requires i < |schemes| && forall j :: 0 <= j < i ==> !EqualsIgnoreCase(schemes[i].0, schemes[j].0)
    ensures PortIn(schemes, schemes[i].0) == schemes[i].1
    decreases |schemes|
  {
    if i > 0 {
      assert schemes[1..][i-1] == schemes[i];
      PortAt(schemes[1..], i - 1);
    }
  }

  /** The case of the letters plays no part. */
  lemma {:induction false} PortIgnoresCase(schemes: seq<(string, nat)>, a: string, b: string)
    requires EqualsIgnoreCase(a, b)
    ensures PortIn(schemes, a) == PortIn(schemes, b)
    decreases |schemes|
  {
    if schemes != [] {
      PortIgnoresCase(schemes[1..], a, b);
    }
  }

  /** The ports that the registry of the internet names for the first schemes. */
  lemma KnownPorts()
    ensures DefaultPort("http") == 80 && DefaultPort("HTTP") == 80
    ensures DefaultPort("ftp") == 21 && DefaultPort("https") == 443 && DefaultPort("gopher") == 70
  {
    hide PortIn;
    PortAt(SCHEMES, 0);
    PortAt(SCHEMES, 1);
    PortAt(SCHEMES, 2);
    PortAt(SCHEMES, 3);
    assert forall i :: 0 <= i < 4 ==> ToLower("HTTP"[i]) == "http"[i];
    PortIgnoresCase(SCHEMES, "HTTP", "http");
  }
}
