// The proxy's URI parser and the URLs it takes apart.
module ParseUri {
  import opened Wrappers

  /** What `parse_uri` stores; None when it leaves its output buffers alone. */
  datatype Parts = Parts(host: string, port: string, path: string)

  // ----- The C library searches

  /** `strchr`: the first position of c in s from position i on, or |s|. */
  function IndexOf(s: string, c: char, i: nat): (n: nat)
    requires i <= |s|
    ensures i <= n <= |s|
    ensures forall k :: i <= k < n ==> s[k] != c
    ensures n < |s| ==> s[n] == c
    decreases |s| - i
  {
    if i == |s| || s[i] == c then i else IndexOf(s, c, i + 1)
  }

  /** `strstr(s, "//")`: the first position of "//", or |s|. */
  function DoubleSlash(s: string, i: nat): (n: nat)
    requires i <= |s|
    ensures i <= n <= |s|
    ensures n < |s| ==> n + 1 < |s| && s[n] == '/' && s[n + 1] == '/'
    ensures forall k :: i <= k < n && k + 1 < |s| ==> !(s[k] == '/' && s[k + 1] == '/')
    decreases |s| - i
  {
    if i + 1 >= |s| then |s|
    else if s[i] == '/' && s[i + 1] == '/' then i
    else DoubleSlash(s, i + 1)
  }

  function Parse(uri: string): Option<Parts> {
    var at := DoubleSlash(uri, 0);
    if at == |uri| then None
    else
      var begin := uri[at + 2..];
      var slash := IndexOf(begin, '/', 0);
      var colon := IndexOf(begin, ':', 0);
      if slash < |begin| && colon < |begin| && colon < slash then
        Some(Parts(begin[..colon], begin[colon + 1..slash], begin[slash..]))
      else if slash < |begin| then
        Some(Parts(begin[..slash], "80", begin[slash..]))
      else
        Some(Parts(begin, "80", "/"))
  }

  // ----- The method

  /** The buffer starts with the C string s. */
  predicate Holds(buf: seq<char>, s: string) {
    |s| < |buf| && buf[..|s|] == s && buf[|s|] == '\0'
  }

  /** `strcpy` or `strncpy` plus terminator. */
  method Store(buf: array<char>, s: string)
    requires |s| < buf.Length
    modifies buf
    ensures Holds(buf[..], s)
    ensures buf[|s| + 1..] == old(buf[..])[|s| + 1..]
  {
    ghost var before := buf[..];
    for i := 0 to |s|
      invariant buf[..i] == s[..i]
      invariant buf[i..] == before[i..]
    {
      buf[i] := s[i];
      assert buf[..i + 1] == s[..i] + [s[i]];
    }
    ghost var stored := buf[..|s|];
    buf[|s|] := '\0';
    assert buf[..|s|] == stored;
  }

  predicate Fits(p: Parts, host: nat, port: nat, path: nat) {
    |p.host| < host && |p.port| < port && |p.path| < path
  }

  /** Buffers longer than the URI, such as the proxy's equal ones, are long enough. */
  lemma PartsFit(uri: string, size: nat)
    requires |uri| < size && Parse(uri).Some?
    ensures Fits(Parse(uri).value, size, size, size)
  {
  }

  /** `parse_uri`, with buffers that the parts and their terminators fit into. */
  method ParseInto(uri: string, host: array<char>, port: array<char>, path: array<char>)
    requires host != port && host != path && port != path
    requires Parse(uri).Some? ==> Fits(Parse(uri).value, host.Length, port.Length, path.Length)
    modifies host, port, path
    ensures match Parse(uri)
            case None => host[..] == old(host[..]) && port[..] == old(port[..]) && path[..] == old(path[..])
            case Some(p) =>
              && Holds(host[..], p.host) && host[|p.host| + 1..] == old(host[..])[|p.host| + 1..]
              && Holds(port[..], p.port) && port[|p.port| + 1..] == old(port[..])[|p.port| + 1..]
              && Holds(path[..], p.path) && path[|p.path| + 1..] == old(path[..])[|p.path| + 1..]
  {
    hide IndexOf, DoubleSlash, Holds;
    var at := DoubleSlash(uri, 0);
    if at < |uri| {
      var begin := uri[at + 2..];
      var hostn := IndexOf(begin, '/', 0);
      var portn := IndexOf(begin, ':', 0);
      if hostn < |begin| && portn < |begin| && portn < hostn {
        Store(host, begin[..portn]);
        Store(port, begin[portn + 1..hostn]);
        Store(path, begin[hostn..]);
      } else if hostn < |begin| {
        Store(host, begin[..hostn]);
        Store(port, "80");
        Store(path, begin[hostn..]);
      } else {
        Store(host, begin);
        Store(port, "80");
        Store(path, "/");
      }
    }
  }

  // ----- URLs, section 3.2.2 of RFC 1945

  /** scheme ":" "//" host [ ":" port ] [ abs_path ]; `prefix` is all before "//", an absent path is "". */
  datatype Url = Url(prefix: string, host: string, port: Option<string>, path: string)

  predicate Free(s: string, c: char) {
    forall i :: 0 <= i < |s| ==> s[i] != c
  }

  /** Nothing in front of the "//" that `strstr` finds contains another one or overlaps it. */
  predicate NoSlashes(s: string) {
    && (forall i :: 0 <= i < |s| - 1 ==> !(s[i] == '/' && s[i + 1] == '/'))
    && (s != "" ==> s[|s| - 1] != '/')
  }

  predicate ValidUrl(u: Url) {
    && NoSlashes(u.prefix)
    && Free(u.host, '/') && Free(u.host, ':')
    && (u.port.Some? ==> Free(u.port.value, '/'))
    && (u.path != "" ==> u.path[0] == '/')
  }

  function Authority(u: Url): string {
    match u.port
    case None => u.host
    case Some(port) => u.host + ":" + port
  }

  function Build(u: Url): string {
    u.prefix + "//" + Authority(u) + u.path
  }

  /** What a client means by the URL: an absent or empty port is 80 and the default path is "/". */
  function Meaning(u: Url): Parts {
    Parts(u.host,
          if u.port == None || u.port == Some("") then "80" else u.port.value,
          if u.path == "" then "/" else u.path)
  }

  lemma {:induction false} IndexAt(s: string, c: char, i: nat, n: nat)
    requires i <= n <= |s| && (forall k :: i <= k < n ==> s[k] != c) && (n < |s| ==> s[n] == c)
    ensures IndexOf(s, c, i) == n
    decreases n - i
  {
    if i == n {
    } else {
      IndexAt(s, c, i + 1, n);
    }
  }

  lemma {:induction false} DoubleSlashAt(s: string, i: nat, n: nat)
    requires i <= n && n + 1 < |s| && s[n] == '/' && s[n + 1] == '/'
    requires forall k :: i <= k < n ==> !(s[k] == '/' && s[k + 1] == '/')
    ensures DoubleSlash(s, i) == n
    decreases n - i
  {
    if i == n {
    } else {
      DoubleSlashAt(s, i + 1, n);
    }
  }

  lemma BeginOf(u: Url)
    requires ValidUrl(u)
    ensures DoubleSlash(Build(u), 0) == |u.prefix| < |Build(u)|
    ensures Build(u)[|u.prefix| + 2..] == Authority(u) + u.path
  {
    var s, n := Build(u), |u.prefix|;
    assert s == u.prefix + "//" + (Authority(u) + u.path);
    assert forall k :: 0 <= k < n ==> s[k] == u.prefix[k];
    DoubleSlashAt(s, 0, n);
  }

  lemma PortAndPath(host: string, port: string, path: string)
    requires Free(host, '/') && Free(host, ':') && Free(port, '/') && path != "" && path[0] == '/'
    ensures var begin := host + ":" + port + path;
            var slash := |host| + 1 + |port|;
            && IndexOf(begin, '/', 0) == slash && IndexOf(begin, ':', 0) == |host|
            && begin[..|host|] == host && begin[|host| + 1..slash] == port && begin[slash..] == path
  {
    var begin := host + ":" + port + path;
    IndexAt(begin, '/', 0, |host| + 1 + |port|);
    IndexAt(begin, ':', 0, |host|);
  }

  lemma HostAndPath(host: string, path: string)
    requires Free(host, '/') && Free(host, ':') && path != "" && path[0] == '/'
    ensures var begin := host + path;
            && IndexOf(begin, '/', 0) == |host| < IndexOf(begin, ':', 0)
            && begin[..|host|] == host && begin[|host|..] == path
  {
    var begin := host + path;
    assert forall k :: 0 <= k < |host| ==> begin[k] == host[k];
    assert begin[|host|] == path[0];
    IndexAt(begin, '/', 0, |host|);
  }

  lemma NoSlash(u: Url)
    requires ValidUrl(u)
    ensures IndexOf(Authority(u), '/', 0) == |Authority(u)|
  {
    IndexAt(Authority(u), '/', 0, |Authority(u)|);
  }

  lemma ParseNoPath(u: Url)
    requires ValidUrl(u) && u.path == ""
    ensures Parse(Build(u)) == Some(Parts(Authority(u), "80", "/"))
  {
    hide Build, Authority, IndexOf, DoubleSlash, Free;
    BeginOf(u);
    NoSlash(u);
    assert Authority(u) + u.path == Authority(u);
  }

  lemma ParseNoPort(u: Url)
    requires ValidUrl(u) && u.path != "" && u.port == None
    ensures Parse(Build(u)) == Some(Parts(u.host, "80", u.path))
  {
    hide Build, IndexOf, DoubleSlash, Free;
    BeginOf(u);
    HostAndPath(u.host, u.path);
  }

  lemma ParsePortAndPath(u: Url)
    requires ValidUrl(u) && u.path != "" && u.port.Some?
    ensures Parse(Build(u)) == Some(Parts(u.host, u.port.value, u.path))
  {
    hide Build, IndexOf, DoubleSlash, Free;
    BeginOf(u);
    PortAndPath(u.host, u.port.value, u.path);
  }

  /** What `parse_uri` makes of every URL: it takes an explicit port literally, and only before a path. */
  lemma ParseOfBuild(u: Url)
    requires ValidUrl(u)
    ensures Parse(Build(u)) == Some(
              if u.path == "" then Parts(Authority(u), "80", "/")
              else Parts(u.host, if u.port == None then "80" else u.port.value, u.path))
  {
    hide Build, Parse, Authority, ValidUrl;
    if u.path == "" {
      ParseNoPath(u);
    } else if u.port == None {
      ParseNoPort(u);
    } else {
      ParsePortAndPath(u);
    }
  }

  /**
   * `parse_uri` undoes URL building, whatever the path contains, exactly when the URL has no explicit
   * port, or has a path and a port that is not empty.
   */
  lemma ParseInvertsBuild(u: Url)
    requires ValidUrl(u)
    ensures Parse(Build(u)) == Some(Meaning(u))
            <==> u.port == None || (u.path != "" && u.port != Some(""))
  {
    ParseOfBuild(u);
  }

  /** Two URLs that are not understood: an empty port is not taken for 80, and a port needs a path. */
  lemma MisreadUrls()
    ensures Parse("http://h:/p") == Some(Parts("h", "", "/p"))
    ensures Parse("http://h:81") == Some(Parts("h:81", "80", "/"))
    ensures Meaning(Url("http:", "h", Some(""), "/p")) == Parts("h", "80", "/p")
    ensures Meaning(Url("http:", "h", Some("81"), "")) == Parts("h", "81", "/")
  {
    hide Parse, IndexOf, DoubleSlash;
    var u, v := Url("http:", "h", Some(""), "/p"), Url("http:", "h", Some("81"), "");
    ParseOfBuild(u);
    ParseOfBuild(v);
    assert Authority(v) == "h:81";
    assert Build(u) == "http://h:/p" && Build(v) == "http://h:81";
  }

  lemma LastBefore(uri: string, at: nat)
    requires 0 < at < |uri| && uri[at] == '/'
    requires forall k :: 0 <= k < at && k + 1 < |uri| ==> !(uri[k] == '/' && uri[k + 1] == '/')
    ensures uri[at - 1] != '/'
  {
    var k := at - 1;
    assert !(uri[k] == '/' && uri[at] == '/');
  }

  lemma ThreeParts(uri: string, at: nat)
    requires at + 1 < |uri| && uri[at] == '/' && uri[at + 1] == '/'
    ensures uri == uri[..at] + "//" + uri[at + 2..]
  {
    assert uri[at..at + 2] == "//";
    assert uri == uri[..at] + uri[at..at + 2] + uri[at + 2..];
  }

  lemma {:induction false} PrefixHasNone(uri: string, at: nat)
    requires at == DoubleSlash(uri, 0) < |uri|
    ensures at + 2 <= |uri| && NoSlashes(uri[..at])
    ensures uri == uri[..at] + "//" + uri[at + 2..]
  {
    hide DoubleSlash;
    ThreeParts(uri, at);
    if at > 0 {
      LastBefore(uri, at);
    }
  }

  lemma SplitAuthority(auth: string) returns (host: string, port: Option<string>)
    requires Free(auth, '/')
    ensures Free(host, '/') && Free(host, ':') && (port.Some? ==> Free(port.value, '/'))
    ensures auth == if port == None then host else host + ":" + port.value
  {
    hide IndexOf;
    var colon := IndexOf(auth, ':', 0);
    if colon == |auth| {
      host, port := auth, None;
    } else {
      host, port := auth[..colon], Some(auth[colon + 1..]);
      assert auth == auth[..colon] + ":" + auth[colon + 1..];
    }
  }

  lemma SplitPath(begin: string) returns (auth: string, path: string)
    ensures Free(auth, '/') && (path != "" ==> path[0] == '/') && begin == auth + path
  {
    hide IndexOf;
    var slash := IndexOf(begin, '/', 0);
    auth, path := begin[..slash], begin[slash..];
  }

  lemma BuildFrom(u: Url, auth: string)
    requires auth == Authority(u)
    ensures Build(u) == u.prefix + "//" + (auth + u.path)
  {
    assert u.prefix + "//" + auth + u.path == u.prefix + "//" + (auth + u.path);
  }

  /** Every URI with "//" in it is such a URL, so that the laws above cover all that the parser stores. */
  lemma EveryUriIsUrl(uri: string) returns (u: Url)
    requires Parse(uri).Some?
    ensures ValidUrl(u) && Build(u) == uri
  {
    hide DoubleSlash, IndexOf, Free, NoSlashes, Build;
    var at := DoubleSlash(uri, 0);
    PrefixHasNone(uri, at);
    var auth, path := SplitPath(uri[at + 2..]);
    var host, port := SplitAuthority(auth);
    u := Url(uri[..at], host, port, path);
    BuildFrom(u, auth);
  }

  /** Without "//" nothing is stored. */
  lemma NoDoubleSlash(uri: string)
    ensures Parse(uri) == None <==> forall k :: 0 <= k && k + 1 < |uri| ==> !(uri[k] == '/' && uri[k + 1] == '/')
  {
    var n := DoubleSlash(uri, 0);
    if n < |uri| {
      assert uri[n] == '/' && uri[n + 1] == '/';
    }
  }
}
