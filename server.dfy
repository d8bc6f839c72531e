/**
 * The request handler of demo/server.py: `do_GET` maps the request path to a
 * static file, its content type and an optional integrity value, by the first
 * of four prefix tests that matches (`re.match('^/…', path)`), and sends
 * status 200, a `Content-Type` header and, when the integrity value is not
 * empty, an `Integrity` header. Opening and sending the file, and the HTTP
 * server itself, are not part of this model.
 */
module Server {
  import opened Signing

  /** The three locals `do_GET` computes: file, content type, integrity value. */
  datatype Resource = Resource(file: string, contentType: string, signature: string)

  datatype Header = Header(name: string, value: string)

  /** What `do_GET` sends before the body: the status, the headers, and which file it serves. */
  datatype Response = Response(status: int, headers: seq<Header>, file: string)

  /**
   * The integrity value written into the server for script-with-sig.js:
   * "ed25519-65dtE6uT…kuIBQ==", spelled as the scheme prefix and the base 64
   * text that follows it.
   */
  const FixedDigest: string :=
    "65dtE6uTKVYBkwUNCrsf1TfbX4bTjpwUPw48/XgLgwXwKayfvOJop+vveiTfqCC1fZjENnGC4sPMIXj73kuIBQ=="
  const FixedSignature: string := SchemePrefix + FixedDigest

  const Html: string := "text/html"
  const JavaScript: string := "application/javascript"

  /** What is served when no prefix matches. */
  const Default: Resource := Resource("index.html", Html, "")

  /** The four branches of the `if`/`elif` chain, in source order. */
  const Routes: seq<(string, Resource)> := [
    ("/enforced", Resource("enforced.html", Html, "")),
    ("/unenforced", Resource("unenforced.html", Html, "")),
    ("/script-with-sig", Resource("script-with-sig.js", JavaScript, FixedSignature)),
    ("/script-without-sig", Resource("script-without-sig.js", JavaScript, ""))
  ]

  /** First-match routing over a table of prefixes; Default when none matches. */
  function FirstMatch(table: seq<(string, Resource)>, path: string): (r: Resource)
    ensures r == Default || exists e :: e in table && e.0 <= path && r == e.1
  {
    if table == [] then Default
    else if table[0].0 <= path then table[0].1
    else FirstMatch(table[1..], path)
  }

  /** The resource `do_GET` selects for a path. */
  function Route(path: string): (r: Resource)
    ensures r == Default || exists k :: 0 <= k < |Routes| && Routes[k].0 <= path && r == Routes[k].1
  {
    FirstMatch(Routes, path)
  }

  /** No entry's prefix is a prefix of another entry's. */
  ghost predicate PrefixFree(table: seq<(string, Resource)>) {
    forall a, b :: a in table && b in table && a != b ==> !(a.0 <= b.0)
  }

  /** Two prefixes of one string are comparable. */
  lemma PrefixesComparable(p: string, q: string, s: string)
    requires p <= s && q <= s && |p| <= |q|
    ensures p <= q
  {
    assert p == s[..|p|] && q == s[..|q|];
    assert q[..|p|] == s[..|p|];
  }

  /** The four prefixes of the server differ before either ends. */
  lemma RoutesPrefixFree()
    ensures PrefixFree(Routes)
  {
    var p0, p1, p2, p3 := Routes[0].0, Routes[1].0, Routes[2].0, Routes[3].0;
    assert p0[1] != p1[1] && p0[1] != p2[1] && p0[1] != p3[1] && p1[1] != p2[1] && p1[1] != p3[1];
    assert p2[12] != p3[12];
    forall a, b | a in Routes && b in Routes && a != b ensures !(a.0 <= b.0) {
      assert a == Routes[0] || a == Routes[1] || a == Routes[2] || a == Routes[3];
      assert b == Routes[0] || b == Routes[1] || b == Routes[2] || b == Routes[3];
    }
  }

  /** In a prefix-free table, any entry whose prefix matches is the one chosen. */
  lemma {:induction false} FirstMatchIsMatching(table: seq<(string, Resource)>, path: string, e: (string, Resource))
    requires PrefixFree(table) && e in table && e.0 <= path
    ensures FirstMatch(table, path) == e.1
    decreases |table|
  {
    var h := table[0];
    if h != e {
      if h.0 <= path {
        if |h.0| <= |e.0| {
          PrefixesComparable(h.0, e.0, path);
        } else {
          PrefixesComparable(e.0, h.0, path);
        }
        assert false;
      }
      assert forall x :: x in table[1..] ==> x in table;
      FirstMatchIsMatching(table[1..], path, e);
    }
  }

  /** With no matching prefix the table gives Default. */
  lemma {:induction false} FirstMatchNone(table: seq<(string, Resource)>, path: string)
    requires forall e :: e in table ==> !(e.0 <= path)
    ensures FirstMatch(table, path) == Default
    decreases |table|
  {
    if table != [] {
      assert forall x :: x in table[1..] ==> x in table;
      FirstMatchNone(table[1..], path);
    }
  }

  /** Reordering the branches of `do_GET` does not change which resource a path gets. */
  lemma RouteOrderIrrelevant(table: seq<(string, Resource)>, path: string)
    requires multiset(table) == multiset(Routes)
    ensures FirstMatch(table, path) == Route(path)
  {
    RoutesPrefixFree();
    forall x ensures x in table <==> x in Routes {
      assert x in table <==> x in multiset(table);
      assert x in Routes <==> x in multiset(Routes);
    }
    if e :| e in Routes && e.0 <= path {
      FirstMatchIsMatching(Routes, path, e);
      FirstMatchIsMatching(table, path, e);
    } else {
      FirstMatchNone(Routes, path);
      FirstMatchNone(table, path);
    }
  }

  /** A path under none of the four prefixes gets index.html as text/html, unsigned. */
  lemma RouteDefault(path: string)
    requires !("/enforced" <= path) && !("/unenforced" <= path)
    requires !("/script-with-sig" <= path) && !("/script-without-sig" <= path)
    ensures Route(path) == Resource("index.html", "text/html", "")
  {
    FirstMatchNone(Routes, path);
  }

  /** Only the prefix matters: anything after one of the four prefixes routes like the prefix. */
  lemma RouteByPrefix(k: nat, rest: string)
    requires k < |Routes|
    ensures Route(Routes[k].0 + rest) == Route(Routes[k].0) == Routes[k].1
  {
    RoutesPrefixFree();
    FirstMatchIsMatching(Routes, Routes[k].0 + rest, Routes[k]);
    FirstMatchIsMatching(Routes, Routes[k].0, Routes[k]);
  }

  /** The resource chosen for each prefix, as the branches of `do_GET` set it. */
  lemma RouteBranches(path: string)
    ensures "/enforced" <= path ==> Route(path) == Resource("enforced.html", "text/html", "")
    ensures "/unenforced" <= path ==> Route(path) == Resource("unenforced.html", "text/html", "")
    ensures "/script-with-sig" <= path ==>
      Route(path) == Resource("script-with-sig.js", "application/javascript", FixedSignature)
    ensures "/script-without-sig" <= path ==>
      Route(path) == Resource("script-without-sig.js", "application/javascript", "")
  {
    RoutesPrefixFree();
    if "/enforced" <= path { FirstMatchIsMatching(Routes, path, Routes[0]); }
    if "/unenforced" <= path { FirstMatchIsMatching(Routes, path, Routes[1]); }
    if "/script-with-sig" <= path { FirstMatchIsMatching(Routes, path, Routes[2]); }
    if "/script-without-sig" <= path { FirstMatchIsMatching(Routes, path, Routes[3]); }
  }

  /** Only paths under /script-with-sig carry an integrity value, and it is FixedSignature. */
  lemma SignedOnlyScriptWithSig(path: string)
    ensures Route(path).signature != "" <==> "/script-with-sig" <= path
    ensures Route(path).signature != "" ==> Route(path).signature == FixedSignature
  {
    RouteBranches(path);
    if forall k :: 0 <= k < |Routes| ==> !(Routes[k].0 <= path) {
      FirstMatchNone(Routes, path);
    }
  }

  /** The written-in value has the shape of Ed25519Signature on a 64-byte signature. */
  lemma FixedSignatureShape()
    ensures |FixedSignature| == 96
    ensures FixedSignature[..8] == SchemePrefix
    ensures FixedSignature[94..] == "=="
  {
    assert FixedSignature[..8] == SchemePrefix;
    assert FixedSignature[94..] == FixedDigest[86..];
  }

  /**
   * `do_GET` up to writing the body: the three locals start at index.html,
   * text/html and no integrity value, the first matching branch overrides
   * them, and the headers are sent one after the other.
   */
  method DoGet(path: string) returns (response: Response)
    ensures response.status == 200
    ensures response.file == Route(path).file
    ensures |response.headers| == (if Route(path).signature != "" then 2 else 1)
    ensures response.headers[0] == Header("Content-Type", Route(path).contentType)
    ensures Route(path).signature != "" ==> response.headers[1] == Header("Integrity", Route(path).signature)
  {
    var resourceFile := "index.html";
    var resourceType := Html;
    var signature := "";
    RouteBranches(path);
    if "/enforced" <= path {
      resourceFile := "enforced.html";
    } else if "/unenforced" <= path {
      resourceFile := "unenforced.html";
    } else if "/script-with-sig" <= path {
      resourceFile := "script-with-sig.js";
      resourceType := JavaScript;
      signature := FixedSignature;
    } else if "/script-without-sig" <= path {
      resourceFile := "script-without-sig.js";
      resourceType := JavaScript;
    } else {
      RouteDefault(path);
    }
    var headers := [Header("Content-Type", resourceType)];
    if signature != "" {
      headers := headers + [Header("Integrity", signature)];
    }
    response := Response(200, headers, resourceFile);
  }
}
