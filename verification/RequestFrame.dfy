/** The framed hashes of idempotency keys and tool requests. */
module RequestFrame {
  import opened Common
  import opened Utf8
  import opened CanonicalJson

  datatype Error = EmptyKey | EmptyToolName

  const KEY_FRAME_PREFIX := "symforge-idempotency-key-v1\0"

  const REQUEST_FRAME_PREFIX := "symforge-idempotency-request-v1\0"

  function KeyFrame(key: string): seq<byte> {
    Encode(KEY_FRAME_PREFIX) + Encode(key)
  }

  function HashKey(key: string): Result<Digest, Error> {
    if key == "" then Err(EmptyKey) else Ok(Sha256(KeyFrame(key)))
  }

  function RequestFrame(tool: string, request: Json): seq<byte> {
    Frame(REQUEST_FRAME_PREFIX, tool, CanonicalText(request))
  }

  function Frame(prefix: string, tool: string, text: string): seq<byte> {
    Encode(prefix) + Encode(tool) + [0] + Encode(text)
  }

  /** `RequestHash::for_tool_request` */
  function HashToolRequest(tool: string, request: Json): Result<Digest, Error> {
    if tool == "" then Err(EmptyToolName) else Ok(Sha256(RequestFrame(tool, request)))
  }

  /** Serialised JSON has no raw NUL: the string escapes remove it (section 7 of RFC 8259). */
  lemma {:induction false} NoRawNul(v: Json)
    requires WellFormed(v)
    ensures '\0' !in Serialize(v)
    decreases v, 1
  {
    match v
    case Str(chars) => NoNulInString(chars);
    case Array(items) => NoNulInItems(items);
    case Object(members) => NoNulInMembers(members);
    case _ =>
  }

  lemma {:induction false} NoNulInString(s: string)
    ensures '\0' !in EscapeAll(s)
  {
    if s != "" { NoNulInString(s[1..]); }
  }

  lemma {:induction false} NoNulInItems(items: seq<Json>)
    requires forall i :: 0 <= i < |items| ==> WellFormed(items[i])
    ensures '\0' !in SerializeItems(items)
    decreases items, 0
  {
    if items != [] {
      NoRawNul(items[0]);
      NoNulInItems(items[1..]);
    }
  }

  lemma {:induction false} NoNulInMembers(members: seq<Member>)
    requires forall i :: 0 <= i < |members| ==> WellFormed(members[i].value)
    ensures '\0' !in SerializeMembers(members)
    decreases members, 0
  {
    if members != [] {
      NoNulInString(members[0].key);
      NoRawNul(members[0].value);
      NoNulInMembers(members[1..]);
    }
  }

  lemma CanonicalTextHasNoNul(v: Json)
    requires WellFormed(v)
    ensures 0 !in Encode(CanonicalText(v))
  {
    CanonicalizeKeepsValue(v);
    NoRawNul(Canonicalize(v));
    NulOnlyFromNul(CanonicalText(v));
  }

  /** Length of the longest suffix without a NUL byte. */
  function TailLength(s: seq<byte>): nat {
    if s == [] || s[|s| - 1] == 0 then 0 else 1 + TailLength(s[..|s| - 1])
  }

  lemma {:induction false} TailLengthIs(a: seq<byte>, b: seq<byte>)
    requires 0 !in b
    ensures TailLength(a + [0] + b) == |b|
  {
    if b == [] {
      assert a + [0] + b == a + [0];
    } else {
      TailLengthIs(a, b[..|b| - 1]);
      assert (a + [0] + b)[..|a| + |b|] == a + [0] + b[..|b| - 1];
    }
  }

  /** The last NUL splits a frame, even when the tool name has NULs of its own. */
  lemma LastNulSplits(a: seq<byte>, b: seq<byte>, c: seq<byte>, d: seq<byte>)
    requires a + [0] + b == c + [0] + d && 0 !in b && 0 !in d
    ensures a == c && b == d
  {
    TailLengthIs(a, b);
    TailLengthIs(c, d);
    var s, t := a + [0] + b, c + [0] + d;
    assert a == s[..|a|] && c == t[..|a|] && b == s[|a| + 1..] && d == t[|a| + 1..];
  }

  lemma FrameDetermines(prefix: string, tool: string, text: string, tool': string, text': string)
    requires 0 !in Encode(text) && 0 !in Encode(text')
    requires Frame(prefix, tool, text) == Frame(prefix, tool', text')
    ensures tool == tool' && text == text'
  {
    LastNulSplits(Encode(prefix) + Encode(tool), Encode(text), Encode(prefix) + Encode(tool'), Encode(text'));
    PrefixedInjective(prefix, tool, tool');
    EncodeInjective(text, text');
  }

  lemma FramesExact(prefix: string, tool: string, v: Json, tool': string, w: Json)
    requires WellFormed(v) && WellFormed(w)
    ensures Frame(prefix, tool, CanonicalText(v)) == Frame(prefix, tool', CanonicalText(w)) <==>
      tool == tool' && SameUpToOrder(v, w)
  {
    CanonicalTextExact(v, w);
    CanonicalTextHasNoNul(v);
    CanonicalTextHasNoNul(w);
    if Frame(prefix, tool, CanonicalText(v)) == Frame(prefix, tool', CanonicalText(w)) {
      FrameDetermines(prefix, tool, CanonicalText(v), tool', CanonicalText(w));
    }
  }

  /** Two tool requests share a request hash exactly when the tools are equal and the requests differ only in the order
      of object members. */
  lemma RequestHashExact(tool: string, request: Json, tool': string, request': Json)
    requires tool != "" && tool' != "" && WellFormed(request) && WellFormed(request')
    ensures HashToolRequest(tool, request) == HashToolRequest(tool', request') <==>
      tool == tool' && SameUpToOrder(request, request')
  {
    FramesExact(REQUEST_FRAME_PREFIX, tool, request, tool', request');
  }

  lemma EncodeNul()
    ensures Encode("\0") == [0]
  {
    assert Encode("\0") == EncodeChar('\0') + Encode("");
  }

  lemma TailIsText(tool: string, text: string)
    ensures Encode(tool) + [0] + Encode(text) == Encode(tool + "\0" + text)
  {
    EncodeNul();
    EncodeConcat(tool, "\0");
    EncodeConcat(tool + "\0", text);
  }

  /** Texts with prefixes that differ somewhere have different encodings. */
  lemma PrefixedDiffer(p: string, q: string, i: nat, a: string, b: string)
    requires i < |p| && i < |q| && p[i] != q[i]
    ensures Encode(p) + Encode(a) != Encode(q) + Encode(b)
  {
    EncodeConcat(p, a);
    EncodeConcat(q, b);
    assert (p + a)[i] == p[i] && (q + b)[i] == q[i];
    EncodingsDiffer(p + a, q + b);
  }

  /** Frames with prefixes that differ somewhere never coincide. */
  lemma FramesDiffer(p: string, q: string, i: nat, key: string, tool: string, text: string)
    requires i < |p| && i < |q| && p[i] != q[i]
    ensures Encode(p) + Encode(key) != Frame(q, tool, text)
  {
    TailIsText(tool, text);
    Regroup4(Encode(q), Encode(tool), [0], Encode(text));
    PrefixedDiffer(p, q, i, key, tool + "\0" + text);
  }

  lemma Regroup4(a: seq<byte>, b: seq<byte>, c: seq<byte>, d: seq<byte>)
    ensures a + b + c + d == a + (b + c + d)
  {
  }

  lemma EncodingsDiffer(a: string, b: string)
    requires a != b
    ensures Encode(a) != Encode(b)
  {
    if Encode(a) == Encode(b) {
      EncodeInjective(a, b);
    }
  }

  lemma PrefixedInjective(prefix: string, key: string, key': string)
    requires Encode(prefix) + Encode(key) == Encode(prefix) + Encode(key')
    ensures key == key'
  {
    EncodeConcat(prefix, key);
    EncodeConcat(prefix, key');
    EncodeInjective(prefix + key, prefix + key');
    assert key == (prefix + key)[|prefix|..] && key' == (prefix + key')[|prefix|..];
  }

  lemma PrefixesDiffer()
    ensures |KEY_FRAME_PREFIX| == 28 && |REQUEST_FRAME_PREFIX| == 32 && KEY_FRAME_PREFIX[21] != REQUEST_FRAME_PREFIX[21]
  {
  }

  /** Every key has its own hash. */
  lemma KeyHashInjective(key: string, key': string)
    requires key != "" && key' != ""
    ensures HashKey(key) == HashKey(key') <==> key == key'
  {
    if KeyFrame(key) == KeyFrame(key') {
      PrefixedInjective(KEY_FRAME_PREFIX, key, key');
    }
  }

  /** No key hash is a request hash. */
  lemma KeyHashIsNoRequestHash(key: string, tool: string, request: Json)
    requires key != "" && tool != ""
    ensures HashKey(key) != HashToolRequest(tool, request)
  {
    PrefixesDiffer();
    FramesDiffer(KEY_FRAME_PREFIX, REQUEST_FRAME_PREFIX, 21, key, tool, CanonicalText(request));
  }
}
