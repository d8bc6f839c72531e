/**
 * The signing script demo/generate-signatures.py: pick the `.js` files of a
 * directory listing, sign each one's contents with Ed25519, and render the
 * signature and the public key as text.
 *
 * The Ed25519 library is not part of this model: its two entry points,
 * `ed25519.signature(message, secret, public)` and `ed25519.publickey(secret)`,
 * are passed in as the function values `sign` and `publickey`, about which
 * nothing is assumed. The directory listing, file reads and randint draws are
 * inputs too.
 */
module Signing {
  import opened Wrappers
  import opened Base64

  /** One name returned by `listdir`, with what `path.isfile` says of it. */
  datatype Entry = Entry(name: string, isFile: bool)

  /** The (secret, public) tuple that `ed25519_key_pair` returns. */
  datatype KeyPair = KeyPair(secret: seq<byte>, public: seq<byte>)

  /** `ed25519.signature(content, secret, public)`. */
  type SignFn = (seq<byte>, seq<byte>, seq<byte>) -> seq<byte>

  /** `ed25519.publickey(secret)`. */
  type PublicKeyFn = seq<byte> -> seq<byte>

  const JsSuffix: string := ".js"

  /** The identifier that starts every integrity value. */
  const SchemePrefix: string := "ed25519-"

  predicate EndsWith(s: string, suffix: string) {
    |suffix| <= |s| && s[|s| - |suffix|..] == suffix
  }

  /** The test in the body of `js_files`'s loop: only files with a `.js` name pass. */
  predicate IsJsFile(e: Entry): (b: bool)
    ensures b ==> e.isFile && |e.name| >= 3
  {
    e.isFile && EndsWith(e.name, JsSuffix)
  }

  /** ".css" and ".js" differ in the third character from the end. */
  lemma CssNameIsNotJs(name: string)
    ensures EndsWith(name, ".css") ==> !EndsWith(name, JsSuffix)
  {
    if EndsWith(name, ".css") {
      var css := ".css";
      assert name[|name| - 3] == css[1] == 'c';
    }
  }

  /** What `js_files` yields, in order: the names of the entries that pass IsJsFile. */
  function JsFilter(listing: seq<Entry>): (r: seq<string>)
    ensures |r| <= |listing|
    ensures (forall i :: 0 <= i < |listing| ==> !IsJsFile(listing[i])) ==> r == []
    ensures (forall i :: 0 <= i < |listing| ==> IsJsFile(listing[i])) ==> |r| == |listing|
  {
    if listing == [] then []
    else
      var last := listing[|listing| - 1];
      JsFilter(listing[..|listing| - 1]) + (if IsJsFile(last) then [last.name] else [])
  }

  /** The generator `js_files`: walk the listing and collect each qualifying name. */
  method JsFiles(listing: seq<Entry>) returns (files: seq<string>)
    ensures files == JsFilter(listing)
  {
    files := [];
    for i := 0 to |listing|
      invariant files == JsFilter(listing[..i])
    {
      assert listing[..i + 1][..i] == listing[..i];
      if listing[i].isFile && EndsWith(listing[i].name, JsSuffix) {
        files := files + [listing[i].name];
      }
    }
    assert listing[..|listing|] == listing;
  }

  /** Filtering a concatenation filters each part: the listing's order is kept. */
  lemma {:induction false} JsFilterAppend(a: seq<Entry>, b: seq<Entry>)
    ensures JsFilter(a + b) == JsFilter(a) + JsFilter(b)
    decreases |b|
  {
    if b == [] {
      assert a + b == a;
    } else {
      var b' := b[..|b| - 1];
      assert (a + b)[..|a + b| - 1] == a + b';
      assert (a + b)[|a + b| - 1] == b[|b| - 1];
      JsFilterAppend(a, b');
    }
  }

  /** A name is yielded if and only if some entry with that name is a `.js` file. */
  lemma {:induction false} JsFilterMembership(listing: seq<Entry>, name: string)
    ensures name in JsFilter(listing) <==>
      exists i :: 0 <= i < |listing| && listing[i].name == name && IsJsFile(listing[i])
    decreases |listing|
  {
    if listing != [] {
      var init := listing[..|listing| - 1];
      JsFilterMembership(init, name);
      if name in JsFilter(init) {
        var i :| 0 <= i < |init| && init[i].name == name && IsJsFile(init[i]);
        assert listing[i] == init[i];
      }
      forall i | 0 <= i < |init| ensures listing[i] == init[i] { }
    }
  }

  /** Each yielded name is that of a `.js` file entry, at increasing positions of the listing. */
  lemma {:induction false} JsFilterOrder(listing: seq<Entry>, j: nat, k: nat)
    requires j < k < |JsFilter(listing)|
    ensures exists a, b ::
              && 0 <= a < b < |listing|
              && listing[a].name == JsFilter(listing)[j] && IsJsFile(listing[a])
              && listing[b].name == JsFilter(listing)[k] && IsJsFile(listing[b])
    decreases |listing|
  {
    var init := listing[..|listing| - 1];
    if k < |JsFilter(init)| {
      JsFilterOrder(init, j, k);
      var a, b :| 0 <= a < b < |init| &&
        init[a].name == JsFilter(init)[j] && IsJsFile(init[a]) &&
        init[b].name == JsFilter(init)[k] && IsJsFile(init[b]);
      assert listing[a] == init[a] && listing[b] == init[b];
    } else {
      JsFilterOrderLast(listing, j, k);
    }
  }

  /** JsFilterOrder when the k-th name comes from the listing's last entry. */
  lemma JsFilterOrderLast(listing: seq<Entry>, j: nat, k: nat)
    requires j < k < |JsFilter(listing)|
    requires k >= |JsFilter(listing[..|listing| - 1])|
    ensures exists a ::
              && 0 <= a < |listing| - 1
              && listing[a].name == JsFilter(listing)[j] && IsJsFile(listing[a])
    ensures listing[|listing| - 1].name == JsFilter(listing)[k] && IsJsFile(listing[|listing| - 1])
  {
    var init := listing[..|listing| - 1];
    var r := JsFilter(listing);
    JsFilterMembership(init, r[j]);
    assert r[j] == JsFilter(init)[j];
    var a :| 0 <= a < |init| && init[a].name == r[j] && IsJsFile(init[a]);
    assert listing[a] == init[a];
  }

  /** Names of a real listing are distinct; then no name is yielded twice. */
  lemma {:induction false} JsFilterDistinct(listing: seq<Entry>)
    requires forall i, j :: 0 <= i < j < |listing| ==> listing[i].name != listing[j].name
    ensures forall i, j :: 0 <= i < j < |JsFilter(listing)| ==> JsFilter(listing)[i] != JsFilter(listing)[j]
    decreases |listing|
  {
    if listing != [] {
      var init := listing[..|listing| - 1];
      var last := listing[|listing| - 1];
      JsFilterDistinct(init);
      if IsJsFile(last) {
        JsFilterMembership(init, last.name);
        assert forall i :: 0 <= i < |init| ==> init[i] == listing[i];
        assert last.name !in JsFilter(init);
      }
    }
  }

  /** Despite "javascript and css" in its comment, `js_files` never yields a `.css` file. */
  lemma CssNotYielded(listing: seq<Entry>, name: string)
    requires EndsWith(name, ".css")
    ensures name !in JsFilter(listing)
  {
    CssNameIsNotJs(name);
    JsFilterMembership(listing, name);
  }

  /** `format_digest`: standard padded base 64 of the digest bytes. */
  function FormatDigest(digest: seq<byte>): (r: string)
    ensures |r| == 4 * ((|digest| + 2) / 3)
    ensures WellPadded(r, |digest|)
    ensures Decode(r) == Some(digest)
  {
    EncodeWellPadded(digest);
    EncodeDecode(digest);
    Encode(digest)
  }

  /** `ed25519_signature`: the scheme prefix, then the encoded signature bytes. */
  function Ed25519Signature(sign: SignFn, key: KeyPair, content: seq<byte>): (r: string)
    ensures |r| == |SchemePrefix| + 4 * ((|sign(content, key.secret, key.public)| + 2) / 3)
    ensures r[..|SchemePrefix|] == SchemePrefix
    ensures Decode(r[|SchemePrefix|..]) == Some(sign(content, key.secret, key.public))
  {
    var digest := FormatDigest(sign(content, key.secret, key.public));
    assert (SchemePrefix + digest)[|SchemePrefix|..] == digest;
    SchemePrefix + digest
  }

  /**
   * Reads an integrity value back: the scheme prefix followed by a strict
   * base 64 string. This is the inverse of Ed25519Signature, used to state
   * what a verifier can recover from the header.
   */
  function ParseIntegrity(value: string): (r: Option<seq<byte>>)
    ensures r.Some? ==> value == SchemePrefix + Encode(r.value)
  {
    if |value| >= |SchemePrefix| && value[..|SchemePrefix|] == SchemePrefix then
      var d := Decode(value[|SchemePrefix|..]);
      if d.Some? then
        DecodeEncode(value[|SchemePrefix|..]);
        d
      else None
    else None
  }

  /** An integrity value gives back exactly the signature bytes it was made from. */
  lemma SignatureRoundTrip(sign: SignFn, key: KeyPair, content: seq<byte>)
    ensures ParseIntegrity(Ed25519Signature(sign, key, content)) == Some(sign(content, key.secret, key.public))
  {
  }

  /** Two integrity values are equal only when the signatures they carry are. */
  lemma SignatureInjective(sign: SignFn, k1: KeyPair, c1: seq<byte>, k2: KeyPair, c2: seq<byte>)
    requires Ed25519Signature(sign, k1, c1) == Ed25519Signature(sign, k2, c2)
    ensures sign(c1, k1.secret, k1.public) == sign(c2, k2.secret, k2.public)
  {
    SignatureRoundTrip(sign, k1, c1);
    SignatureRoundTrip(sign, k2, c2);
  }

  /** With a 64-byte Ed25519 signature the value is the prefix, 86 alphabet characters and "==". */
  lemma SignatureShape(sign: SignFn, key: KeyPair, content: seq<byte>)
    requires |sign(content, key.secret, key.public)| == 64
    ensures var r := Ed25519Signature(sign, key, content);
      |r| == 96 && r[..8] == SchemePrefix && r[94..] == "==" &&
      forall i :: 8 <= i < 94 ==> IsBase64Char(r[i])
  {
    var sig := sign(content, key.secret, key.public);
    var r := Ed25519Signature(sign, key, content);
    Encode64(sig);
    assert r == SchemePrefix + Encode(sig);
    forall i | 8 <= i < 94 ensures IsBase64Char(r[i]) {
      assert r[i] == Encode(sig)[i - 8];
    }
    assert r[94..] == Encode(sig)[86..];
  }

  /**
   * `ed25519_key_pair`: a 32-character secret whose i-th character is chr of
   * the i-th `randint(0, 255)` draw, paired with its public key.
   */
  function Ed25519KeyPair(publickey: PublicKeyFn, draw: nat -> byte): (k: KeyPair)
    ensures |k.secret| == 32
    ensures forall i :: 0 <= i < 32 ==> k.secret[i] == draw(i)
    ensures k.public == publickey(k.secret)
  {
    var secret := seq(32, i requires 0 <= i => draw(i));
    KeyPair(secret, publickey(secret))
  }

  /** The public-key text `main` prints: the same encoding as signatures, with no scheme prefix. */
  function PublicKeyText(key: KeyPair): (r: string)
    ensures Decode(r) == Some(key.public)
    ensures forall i :: 0 <= i < |r| ==> r[i] != '-'
    ensures ParseIntegrity(r).None?
  {
    var r := FormatDigest(key.public);
    assert forall i :: 0 <= i < |r| ==> IsBase64Char(r[i]) || r[i] == PadChar;
    r
  }

  /**
   * The values `main` prints: a fresh key pair, then for each `.js` file its
   * name and the integrity value of its contents, then the public key.
   */
  method ListValues(listing: seq<Entry>, read: string -> seq<byte>, sign: SignFn,
                    publickey: PublicKeyFn, draw: nat -> byte)
    returns (lines: seq<(string, string)>, publicKeyText: string)
    ensures var key := Ed25519KeyPair(publickey, draw); var files := JsFilter(listing);
      |lines| == |files| &&
      (forall k :: 0 <= k < |lines| ==>
        lines[k] == (files[k], Ed25519Signature(sign, key, read(files[k])))) &&
      publicKeyText == PublicKeyText(key)
  {
    var key := Ed25519KeyPair(publickey, draw);
    var files := JsFiles(listing);
    lines := [];
    for i := 0 to |files|
      invariant |lines| == i
      invariant forall k :: 0 <= k < i ==> lines[k] == (files[k], Ed25519Signature(sign, key, read(files[k])))
    {
      var content := read(files[i]);
      lines := lines + [(files[i], Ed25519Signature(sign, key, content))];
    }
    publicKeyText := PublicKeyText(key);
  }
}
