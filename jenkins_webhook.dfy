/**
 * The string and decision logic of python/gitlab-jenkins-webhook.py: derive
 * the GitLab project path from the git remote URI, percent-encode its "/"
 * characters for use as a project id in an API path (section 2.1 of RFC
 * 3986, for this one character), and choose between updating the first
 * existing hook whose url matches and creating a new one.
 */
module JenkinsWebhook {
  import opened Wrappers

  // ---------------------------------------------------------------------
  // Project derivation: re.sub('\.git$', '', re.sub('^[^:]+:', '', uri))
  // ---------------------------------------------------------------------

  /** The index of the first `c` in `s`, if any. */
  function IndexOf(s: string, c: char): (r: Option<nat>)
    ensures r.None? <==> c !in s
    ensures r.Some? ==> r.value < |s| && s[r.value] == c && c !in s[..r.value]
  {
    if s == [] then None
    else if s[0] == c then Some(0)
    else
      var rest := IndexOf(s[1..], c);
      if rest.None? then None
      else
        assert s[..rest.value + 1] == [s[0]] + s[1..][..rest.value];
        Some(rest.value + 1)
  }

  /**
   * `re.sub('^[^:]+:', '', uri)`: remove one or more non-colon characters
   * followed by a colon at the start, that is everything up to and including
   * the first colon, provided that colon is not the first character.
   */
  function StripHost(uri: string): (r: string)
    ensures r == uri <==> ':' !in uri || uri[0] == ':'
    ensures r != uri ==>
      var k := |uri| - |r| - 1;
      && 1 <= k < |uri| && uri[k] == ':' && ':' !in uri[..k] && uri[k + 1..] == r
  {
    match IndexOf(uri, ':')
    case None => uri
    case Some(k) => if k >= 1 then uri[k + 1..] else uri
  }

  /** `s` ends with `t`. */
  predicate EndsWith(s: string, t: string)
  {
    |s| >= |t| && s[|s| - |t|..] == t
  }

  /**
   * `re.sub('\.git$', '', s)`. Python's `$` matches at the very end and also
   * just before a final newline, so ".git" is removed in either position.
   */
  function StripGitSuffix(s: string): (r: string)
    ensures EndsWith(s, ".git") ==> s == r + ".git"
    ensures EndsWith(s, ".git\n") ==> |r| == |s| - 4 && s == r[..|r| - 1] + ".git\n" && r[|r| - 1] == '\n'
    ensures !EndsWith(s, ".git") && !EndsWith(s, ".git\n") ==> r == s
  {
    GitSuffixesExclusive(s);
    if EndsWith(s, ".git") then
      assert s == s[..|s| - 4] + s[|s| - 4..];
      s[..|s| - 4]
    else if EndsWith(s, ".git\n") then
      var r := s[..|s| - 5] + "\n";
      assert r[..|r| - 1] == s[..|s| - 5];
      assert s == s[..|s| - 5] + s[|s| - 5..];
      r
    else s
  }

  /** Only one of the two suffixes can be present: a string ending in "\n" does not end in "t". */
  lemma GitSuffixesExclusive(s: string)
    ensures !(EndsWith(s, ".git") && EndsWith(s, ".git\n"))
  {
    if EndsWith(s, ".git") && |s| >= 5 {
      assert s[|s| - 4..][3] == s[|s| - 1];
      assert s[|s| - 5..][4] == s[|s| - 1];
    }
  }

  /**
   * The project path for a remote URI (already stripped of trailing
   * whitespace). It is never longer than the URI, and a URI with neither a
   * host part nor a ".git" suffix is its own project.
   */
  function ProjectOf(uri: string): (r: string)
    ensures |r| <= |uri|
    ensures ':' !in uri && !EndsWith(uri, ".git") && !EndsWith(uri, ".git\n") ==> r == uri
  {
    StripGitSuffix(StripHost(uri))
  }

  /** In `a + [c] + b` with no `c` in `a`, the first `c` is the one after `a`. */
  lemma {:induction false} IndexOfAfter(a: string, c: char, b: string)
    requires c !in a
    ensures IndexOf(a + [c] + b, c) == Some(|a|)
  {
    if a != [] {
      assert c !in a[1..] by {
        assert forall x :: x in a[1..] ==> x in a;
      }
      IndexOfAfter(a[1..], c, b);
      assert (a + [c] + b)[1..] == a[1..] + [c] + b;
      assert (a + [c] + b)[0] == a[0] != c;
    }
  }

  /** Removing what follows the first separator's predecessor: `(a + [c] + b)[|a| + 1..] == b`. */
  lemma DropThrough(a: string, c: char, b: string)
    ensures (a + [c] + b)[|a| + 1..] == b
  {
  }

  /** A path with ".git" appended loses exactly that suffix again. */
  lemma StripGitSuffixOf(t: string)
    ensures StripGitSuffix(t + ".git") == t
  {
    assert (t + ".git")[|t + ".git"| - 4..] == ".git";
    assert EndsWith(t + ".git", ".git");
  }

  /** With no colon in a non-empty `host`, `host:rest` loses exactly `host:`. */
  lemma StripHostAfter(host: string, rest: string)
    requires host != "" && ':' !in host
    ensures StripHost(host + [':'] + rest) == rest
  {
    IndexOfAfter(host, ':', rest);
    DropThrough(host, ':', rest);
  }

  /** An scp-style remote `host:path.git` gives the project path `path`. */
  lemma ProjectOfScpRemote(host: string, path: string)
    requires host != "" && ':' !in host
    ensures ProjectOf(host + ":" + path + ".git") == path
  {
    ScpShape(host, path);
    StripHostAfter(host, path + ".git");
    StripGitSuffixOf(path);
  }

  /** `host:path.git`, regrouped around its colon. */
  lemma ScpShape(host: string, path: string)
    ensures host + ":" + path + ".git" == host + [':'] + (path + ".git")
  {
  }

  /**
   * A URL-style remote `scheme://host/path.git` (https, or ssh with a
   * scheme) loses only `scheme:`: the project comes out as `//host/path`,
   * which is not a GitLab project path.
   */
  lemma ProjectOfUrlRemote(scheme: string, host: string, path: string)
    requires scheme != "" && ':' !in scheme
    ensures ProjectOf(scheme + "://" + host + "/" + path + ".git") == "//" + host + "/" + path
  {
    var t := "//" + host + "/" + path;
    SchemeShape(scheme, host, path);
    StripHostAfter(scheme, t + ".git");
    StripGitSuffixOf(t);
  }

  /** The remote is URL-style: its first colon is followed by "//". */
  predicate UrlStyle(uri: string)
  {
    match IndexOf(uri, ':')
    case Some(k) => k + 2 < |uri| && uri[k + 1] == '/' && uri[k + 2] == '/'
    case None => false
  }

  /** What follows the host in `host/path`: the path, without a ".git" suffix. */
  function PathAfterHost(rest: string): string
  {
    match IndexOf(rest, '/')
    case Some(j) => StripGitSuffix(rest[j + 1..])
    case None => ""
  }

  /**
   * The project path as evidently intended for both remote forms: for
   * `scheme://host/path` everything up to the first "/" after the host is
   * removed; any other remote is handled as written.
   */
  function ProjectOfRemote(uri: string): string
  {
    if UrlStyle(uri) then PathAfterHost(uri[IndexOf(uri, ':').value + 3..]) else ProjectOf(uri)
  }

  /** A remote whose first colon, at `k`, is followed by "//" is read from just after the "//". */
  lemma ProjectOfRemoteOfUrl(uri: string, k: nat)
    requires IndexOf(uri, ':') == Some(k) && k + 2 < |uri| && uri[k + 1] == '/' && uri[k + 2] == '/'
    ensures ProjectOfRemote(uri) == PathAfterHost(uri[k + 3..])
  {
    assert UrlStyle(uri);
  }

  /** A remote `scheme://rest` is URL-style, and the intended derivation reads `rest` after the host. */
  lemma ProjectOfRemoteOfScheme(scheme: string, rest: string)
    requires scheme != "" && ':' !in scheme
    ensures ProjectOfRemote(scheme + [':'] + ("//" + rest)) == PathAfterHost(rest)
  {
    var after := "//" + rest;
    var uri := scheme + [':'] + after;
    IndexOfAfter(scheme, ':', after);
    DropThrough(scheme, ':', after);
    var k := |scheme|;
    assert uri[k + 1] == after[0] == '/' && uri[k + 2] == after[1] == '/';
    assert uri[k + 3..] == after[2..] == rest;
    ProjectOfRemoteOfUrl(uri, k);
  }

  /** With no "/" in `host`, what follows the host in `host/path.git` is `path`. */
  lemma PathAfterHostOf(host: string, path: string)
    requires '/' !in host
    ensures PathAfterHost(host + ['/'] + (path + ".git")) == path
  {
    IndexOfAfter(host, '/', path + ".git");
    DropThrough(host, '/', path + ".git");
    StripGitSuffixOf(path);
  }

  /** For a URL-style remote the intended derivation gives the project path. */
  lemma ProjectOfRemoteUrl(scheme: string, host: string, path: string)
    requires scheme != "" && ':' !in scheme && '/' !in host
    ensures ProjectOfRemote(scheme + "://" + host + "/" + path + ".git") == path
  {
    var rest := host + ['/'] + (path + ".git");
    UrlShape(scheme, host, path);
    ProjectOfRemoteOfScheme(scheme, rest);
    PathAfterHostOf(host, path);
  }

  /** `scheme://host/path.git`, regrouped around its colon. */
  lemma SchemeShape(scheme: string, host: string, path: string)
    ensures scheme + "://" + host + "/" + path + ".git" == scheme + [':'] + ("//" + host + "/" + path + ".git")
  {
  }

  /** `scheme://host/path.git`, regrouped around its colon and the "/" after the host. */
  lemma UrlShape(scheme: string, host: string, path: string)
    ensures scheme + "://" + host + "/" + path + ".git" == scheme + [':'] + ("//" + (host + ['/'] + (path + ".git")))
  {
  }

  /** On an scp-style remote the intended derivation agrees with the one written. */
  lemma ProjectOfRemoteScp(host: string, path: string)
    requires host != "" && ':' !in host
    requires !(|path| >= 2 && path[..2] == "//")
    ensures ProjectOfRemote(host + ":" + path + ".git") == path
  {
    var tail := path + ".git";
    var uri := host + [':'] + tail;
    ScpShape(host, path);
    IndexOfAfter(host, ':', tail);
    DropThrough(host, ':', tail);
    var k := |host|;
    // what follows the colon is not "//"
    assert uri[k + 1] == tail[0] && uri[k + 2] == tail[1];
    if |path| >= 2 {
      assert path[..2] == [tail[0], tail[1]];
    } else {
      assert tail[1] != '/';
    }
    assert !UrlStyle(uri);
    ProjectOfScpRemote(host, path);
  }

  // ---------------------------------------------------------------------
  // Percent-encoding of "/"
  // ---------------------------------------------------------------------

  /** `re.sub('/', '%2F', project)`: every "/" becomes "%2F". */
  function EncodeSlashes(s: string): (r: string)
    ensures '/' !in r
    ensures '/' !in s ==> r == s
    ensures forall c :: c in r && c != '%' && c != '2' && c != 'F' ==> c in s
  {
    if s == [] then ""
    else (if s[0] == '/' then "%2F" else [s[0]]) + EncodeSlashes(s[1..])
  }

  /** Decoding of "%2F" back to "/", left to right; the inverse of `EncodeSlashes`. */
  function DecodeSlashes(s: string): string
  {
    if |s| >= 3 && s[..3] == "%2F" then "/" + DecodeSlashes(s[3..])
    else if s == [] then ""
    else [s[0]] + DecodeSlashes(s[1..])
  }

  /** Encoding loses nothing for a path with no "%": decoding gives the path back. */
  lemma {:induction false} DecodeEncode(s: string)
    requires '%' !in s
    ensures DecodeSlashes(EncodeSlashes(s)) == s
  {
    if s != [] {
      assert s == [s[0]] + s[1..];
      assert '%' !in s[1..] by {
        assert forall c :: c in s[1..] ==> c in s;
      }
      DecodeEncode(s[1..]);
      var e := EncodeSlashes(s);
      var rest := EncodeSlashes(s[1..]);
      if s[0] == '/' {
        assert e == "%2F" + rest;
        assert e[..3] == "%2F" && e[3..] == rest;
        assert DecodeSlashes(e) == "/" + DecodeSlashes(rest);
      } else {
        assert e == [s[0]] + rest;
        assert e[0] == s[0] && s[0] != '%';
        assert !(|e| >= 3 && e[..3] == "%2F") by {
          if |e| >= 3 {
            assert e[..3][0] == e[0];
          }
        }
        assert e[1..] == rest;
        assert DecodeSlashes(e) == [s[0]] + DecodeSlashes(rest);
      }
    }
  }

  /** Each "/" turns into three characters, every other character into itself. */
  lemma {:induction false} EncodeLength(s: string)
    ensures |EncodeSlashes(s)| == |s| + 2 * multiset(s)['/']
  {
    if s != [] {
      EncodeLength(s[1..]);
      assert s == [s[0]] + s[1..];
      assert multiset(s) == multiset([s[0]]) + multiset(s[1..]);
    }
  }

  // ---------------------------------------------------------------------
  // create_or_update_hook
  // ---------------------------------------------------------------------

  /** A project hook as listed by the API; `id` is already rendered as text. */
  datatype Hook = Hook(id: string, url: string)

  /** The API request made: update (`put`) an existing hook, or create (`post`) one. */
  datatype HookRequest = Put(path: string, url: string) | Post(path: string, url: string)

  /** The first hook, from position `from` on, whose url equals `url`. */
  function FindHook(hooks: seq<Hook>, url: string, from: nat): (r: Option<nat>)
    requires from <= |hooks|
    ensures r.Some? ==> from <= r.value < |hooks| && hooks[r.value].url == url
    ensures r.Some? ==> forall j :: from <= j < r.value ==> hooks[j].url != url
    ensures r.None? <==> forall j :: from <= j < |hooks| ==> hooks[j].url != url
    decreases |hooks| - from
  {
    if from == |hooks| then None
    else if hooks[from].url == url then Some(from)
    else FindHook(hooks, url, from + 1)
  }

  /**
   * `create_or_update_hook(project, url)` over the hooks listed for the
   * project (all pages, in order): update the first hook with that url,
   * otherwise create a new one.
   */
  function CreateOrUpdateHook(project: string, url: string, hooks: seq<Hook>): (r: HookRequest)
    ensures r.url == url
    ensures r.Put? <==> exists i :: 0 <= i < |hooks| && hooks[i].url == url
    ensures r.Put? ==>
      (exists i :: 0 <= i < |hooks| && hooks[i].url == url
        && (forall j :: 0 <= j < i ==> hooks[j].url != url)
        && r.path == "/projects/" + EncodeSlashes(project) + "/hooks/" + hooks[i].id)
    ensures r.Post? ==> r.path == "/projects/" + EncodeSlashes(project) + "/hooks"
  {
    var encoded := EncodeSlashes(project);
    match FindHook(hooks, url, 0)
    case Some(i) => Put("/projects/" + encoded + "/hooks/" + hooks[i].id, url)
    case None => Post("/projects/" + encoded + "/hooks", url)
  }
}
