# Signature-based subresource integrity demo, modelled in Dafny

The demo has two small programs. `demo/generate-signatures.py` signs the
`.js` files of its directory with Ed25519. It prints each signature as an
integrity value, `"ed25519-"` followed by the standard base 64 of the
signature bytes, and then the base 64 of the public key.
`demo/server.py` answers GET requests. It maps the request path to one of
five static files and sends a `Content-Type` header. For the one signed
script it also sends an `Integrity` header whose value is written into
the server.

The model has four modules:

- `Wrappers` (wrappers.dfy): the `Option` type returned by decoding.
- `Base64` (base64.dfy): `format_digest`, which is Python's `b64encode`.
  This is standard base 64 with padding, as defined in section 4 of
  RFC 4648. `Encode` works one three-byte group at a time. `Decode` is
  its strict inverse, and the lemmas prove the round trip in both
  directions, the length, the alphabet and the padding.
- `Signing` (signing.dfy): `js_files`, `format_digest`,
  `ed25519_signature`, `ed25519_key_pair`, and the values `main` prints.
  The Ed25519 library stays uninterpreted. Its `signature` and
  `publickey` functions are passed in as function values (`SignFn`,
  `PublicKeyFn`), and nothing is assumed about them. The directory
  listing, the file contents (`read`) and the `randint(0, 255)` draws
  (`draw`) are inputs as well.
- `Server` (server.dfy): the routing and header logic of
  `RequestHandler.do_GET`. `DoGet` is written the way the handler is. It
  sets the three locals to their defaults, then lets the first matching
  `if`/`elif` branch override them, then builds the headers in order.
  It is proved against `Route`, a first-match lookup over the table
  `Routes` of the four (prefix, resource) branches.

Where the code and its doc comments disagree, the model follows the code:

- `format_digest` is documented as "URL-safe base64 … strip any padding",
  but it calls `b64encode`. That gives the standard alphabet (`+`, `/`)
  with `=` padding.
- `js_files` is documented as yielding "javascript and css" files, but
  it tests only `endswith(".js")`.

The server's signature string, `ed25519-65dt…kuIBQ==`, is written in the
model as `SchemePrefix + FixedDigest`. This is the same value, split at
the `-`.

## Model

| member | source | states |
|---|---|---|
| `Base64.Encode` | demo/generate-signatures.py:20-21 | the encoding of n bytes has 4 * ceil(n / 3) characters |
| `Base64.EncodeWellPadded` | demo/generate-signatures.py:20-21 | every character of the encoding is in `A-Za-z0-9+/`, except exactly PadLength(n) (at most two) trailing `=`, where n + PadLength(n) is a multiple of 3 |
| `Base64.EncodeDecode` | demo/generate-signatures.py:20-21 | decoding the encoding of any byte sequence gives back exactly that sequence |
| `Base64.DecodeEncode` | demo/generate-signatures.py:20-21 | every string that decodes re-encodes to itself, so the decoder accepts exactly the encoder's outputs |
| `Base64.EncodeInjective` | demo/generate-signatures.py:20-21 | distinct byte sequences have distinct encodings |
| `Base64.Encode64` | demo/generate-signatures.py:20-21 | a 64-byte input (an Ed25519 signature) encodes to 88 characters: 86 alphabet characters, then `==` |
| `Base64.TestVectors` | demo/generate-signatures.py:20-21 | the encoder gives the test vectors of section 10 of RFC 4648: "", "f", "fo", "foo", "foob", "fooba", "foobar" encode to "", "Zg==", "Zm8=", "Zm9v", "Zm9vYg==", "Zm9vYmE=", "Zm9vYmFy" |
| `Base64.Encode32` | demo/generate-signatures.py:45 | a 32-byte input (an Ed25519 public key) encodes to 44 characters: 43 alphabet characters, then one `=` |
| `Signing.IsJsFile` | demo/generate-signatures.py:12-15 | only files pass the test, and only names long enough to end in `.js` |
| `Signing.CssNameIsNotJs` | demo/generate-signatures.py:9-15 | a name ending in `.css` never ends in `.js`, so the test rejects it |
| `Signing.JsFilter` | demo/generate-signatures.py:12-15 | at most one name is yielded per entry of the listing. No name is yielded when no entry qualifies, and one per entry when every entry qualifies |
| `Signing.JsFilterOrderLast` | demo/generate-signatures.py:12-15 | when the k-th yielded name comes from the last entry, that entry qualifies, and every earlier yielded name comes from a qualifying entry before it |
| `Signing.JsFiles` | demo/generate-signatures.py:12-15 | the loop over the listing yields exactly `JsFilter(listing)`: the names of the entries that are files and end in `.js`, in listing order |
| `Signing.JsFilterAppend` | demo/generate-signatures.py:13-15 | filtering a concatenated listing is the concatenation of the filtered parts, so the listing's order is kept |
| `Signing.JsFilterMembership` | demo/generate-signatures.py:13-15 | a name is yielded if and only if some entry with that name is a file whose name ends in `.js` |
| `Signing.JsFilterOrder` | demo/generate-signatures.py:13-15 | the j-th and k-th yielded names (j < k) come from qualifying entries at increasing positions of the listing |
| `Signing.JsFilterDistinct` | demo/generate-signatures.py:13-15 | when the listing's names are distinct, as `listdir`'s are, no name is yielded twice |
| `Signing.CssNotYielded` | demo/generate-signatures.py:9-15 | a name ending in `.css` is never yielded, whatever the doc comment says |
| `Signing.FormatDigest` | demo/generate-signatures.py:17-21 | the result has 4 * ceil(n / 3) characters, is in the standard alphabet with trailing padding, and decodes back to the digest |
| `Signing.Ed25519Signature` | demo/generate-signatures.py:26-28 | the value starts with the 8 characters `ed25519-`, has 8 + 4 * ceil(n / 3) characters, and the rest decodes to `signature(content, secret, public)` |
| `Signing.ParseIntegrity` | demo/generate-signatures.py:26-28 | reading an integrity value back: whatever it accepts is exactly `ed25519-` followed by the encoding of the returned bytes |
| `Signing.SignatureRoundTrip` | demo/generate-signatures.py:26-28 | parsing an integrity value gives back the signature bytes it was made from |
| `Signing.SignatureInjective` | demo/generate-signatures.py:26-28 | two equal integrity values carry equal signatures |
| `Signing.SignatureShape` | demo/generate-signatures.py:26-28 | with a 64-byte signature the value is 96 characters: `ed25519-`, 86 alphabet characters, then `==` |
| `Signing.Ed25519KeyPair` | demo/generate-signatures.py:33-36 | the secret has 32 characters, the i-th being the i-th `randint(0, 255)` draw, and the public half is `publickey(secret)` |
| `Signing.PublicKeyText` | demo/generate-signatures.py:45 | the printed public key is the plain encoding of the public key. It decodes to the key, contains no `-`, and is never read as an integrity value |
| `Signing.ListValues` | demo/generate-signatures.py:38-45 | `main` lists one line per yielded file, in order: the file name and the integrity value of that file's contents under one key pair. It then prints `PublicKeyText` of the same key |
| `Server.FirstMatch` | demo/server.py:9-19 | the chosen resource is the default, or the resource of some entry whose prefix starts the path |
| `Server.Route` | demo/server.py:6-19 | the resource for a path is the default, or the resource of one of the four branches whose prefix starts the path |
| `Server.RoutesPrefixFree` | demo/server.py:9-17 | none of `/enforced`, `/unenforced`, `/script-with-sig`, `/script-without-sig` is a prefix of another |
| `Server.FirstMatchIsMatching` | demo/server.py:9-19 | in a prefix-free table, any entry whose prefix starts the path is the one chosen, wherever it stands in the table |
| `Server.FirstMatchNone` | demo/server.py:6-8 | when no prefix starts the path, the default resource is chosen |
| `Server.RouteOrderIrrelevant` | demo/server.py:9-19 | any reordering of the four branches routes every path to the same resource |
| `Server.RouteDefault` | demo/server.py:6-8 | a path under none of the four prefixes gets `index.html`, `text/html`, no signature |
| `Server.RouteByPrefix` | demo/server.py:9-19 | matching is by prefix only: a route's prefix followed by anything routes like the prefix itself |
| `Server.RouteBranches` | demo/server.py:9-19 | `/enforced…` gives `enforced.html` and `/unenforced…` gives `unenforced.html`, both `text/html` and unsigned. `/script-with-sig…` gives `script-with-sig.js`, `application/javascript` and the written-in signature. `/script-without-sig…` gives `script-without-sig.js`, `application/javascript` and no signature |
| `Server.SignedOnlyScriptWithSig` | demo/server.py:13-24 | the signature is non-empty if and only if the path starts with `/script-with-sig`, and then it is the written-in value |
| `Server.FixedSignatureShape` | demo/server.py:16 | the written-in value has 96 characters, starts with `ed25519-` and ends in `==`, the shape of an encoded 64-byte Ed25519 signature |
| `Server.DoGet` | demo/server.py:5-24 | status is 200 on every path and the file is the routed one. `Content-Type` is always the first header `do_GET` itself sends, and `Integrity` follows, carrying the signature, if and only if the signature is non-empty |

## Left out

- Ed25519 signing and public-key derivation belong to the foreign `ed25519` library. They are uninterpreted function parameters. Nothing about signature validity, verification or unforgeability is modelled, and the code has no verify step.
- `randint` is not modelled. The 32 draws are the input `draw`, so the model does not capture that the generator is not cryptographically secure.
- File system access is not modelled. `listdir`, `path.isfile`, `open`/`read` and `file(...)` become the given listing, its `isFile` flags and the `read` function. The script tests `path.isfile(f)` and opens `f` relative to the working directory, not `DIR`, and the flags stand for whatever those calls report.
- `print` output in `main` is not modelled: `ListValues` returns the values that are printed, not the text around them.
- The HTTP plumbing is not modelled: the server class, `send_response`, `send_header`, `end_headers`, writing the file body and `serve_forever`. `DoGet` returns the status, the headers `do_GET` itself sends, and the name of the file it would send. `send_response(200)` also logs the request and sends its own `Server` and `Date` headers before these. On an HTTP/0.9 request, no status line and no headers are written at all.
- `signature is not ""` is an identity test in CPython and is modelled as string inequality.
- Python 2 `str` values that hold bytes (contents, keys, signatures) are byte sequences. The secret built with `chr` is one byte per character.
- FixedSignatureShape: does not prove that the 88 characters after `ed25519-` are all alphabet characters or that they decode to 64 bytes. The verifier does not evaluate the decoder over a literal that long.
