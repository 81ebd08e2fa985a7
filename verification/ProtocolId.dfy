/** Protocol identifiers, packages/node/src/reqresp/utils/protocolId.ts. */
module ProtocolIds {
  import opened Wrappers
  import opened Text

  datatype Encoding = SSZ_SNAPPY

  function EncodingText(e: Encoding): string {
    match e
    case SSZ_SNAPPY => "ssz_snappy"
  }

  function ParseEncoding(s: string): (e: Option<Encoding>)
    ensures e.Some? <==> exists x :: EncodingText(x) == s
    ensures e.Some? ==> EncodingText(e.value) == s
  {
    if s == "ssz_snappy" then
      assert EncodingText(SSZ_SNAPPY) == s;
      Some(SSZ_SNAPPY)
    else None
  }

  datatype Protocol = Protocol(protocolPrefix: string, method_: string, version: int, encoding: Encoding)

  function FormatProtocolID(p: Protocol): string {
    p.protocolPrefix + "/" + p.method_ + "/" + IntText(p.version) + "/" + EncodingText(p.encoding)
  }

  ghost function ParseProtocolID(protocolId: string): Result<Protocol, string> {
    var result := Split(protocolId, '/');
    var n := |result|;
    if n < 4 then Failure("Invalid protocol id")
    else
      var encoding := ParseEncoding(result[n - 1]);
      if encoding.None? then Failure("Invalid protocol encoding")
      else if !IsIntText(result[n - 2]) then Failure("Invalid protocol version")
      else Success(Protocol(Join(result[..n - 3], '/'), result[n - 3], ParseInt(result[n - 2]), encoding.value))
  }

  lemma ParseOfEncoding(e: Encoding)
    ensures ParseEncoding(EncodingText(e)) == Some(e)
  {
    match e
    case SSZ_SNAPPY =>
  }

  /** The parts of an identifier whose last three fields have no slash. */
  lemma SplitOfFields(prefix: string, method_: string, version: string, encoding: string)
    requires '/' !in method_ && '/' !in version && '/' !in encoding
    ensures Split(prefix + "/" + method_ + "/" + version + "/" + encoding, '/')
         == Split(prefix, '/') + [method_, version, encoding]
  {
    SplitOfAppend(prefix, '/', method_);
    SplitOfAppend(prefix + "/" + method_, '/', version);
    SplitOfAppend(prefix + "/" + method_ + "/" + version, '/', encoding);
    assert Split(prefix, '/') + [method_] + [version] + [encoding] == Split(prefix, '/') + [method_, version, encoding];
  }

  lemma IntTextHasNoSlash(n: int)
    ensures '/' !in IntText(n)
  {
  }

  /** Printing and then parsing gives the protocol back exactly when its method has no slash; the
      prefix may have any number of them. */
  lemma ParseOfFormatExactlyWhen(p: Protocol)
    ensures ParseProtocolID(FormatProtocolID(p)) == Success(p) <==> '/' !in p.method_
  {
    if '/' !in p.method_ {
      var parts, prefix := Split(FormatProtocolID(p), '/'), Split(p.protocolPrefix, '/');
      IntTextHasNoSlash(p.version);
      SplitOfFields(p.protocolPrefix, p.method_, IntText(p.version), EncodingText(p.encoding));
      assert parts[..|parts| - 3] == prefix;
      JoinOfSplit(p.protocolPrefix, '/');
      ParseOfIntText(p.version);
      assert parts[|parts| - 1] == EncodingText(p.encoding) && parts[|parts| - 2] == IntText(p.version);
      ParseOfEncoding(p.encoding);
    }
  }

  /** The version field of an identifier that parses. */
  ghost function VersionText(protocolId: string): string
    requires ParseProtocolID(protocolId).Success?
  {
    var result := Split(protocolId, '/');
    result[|result| - 2]
  }

  /** An identifier that parses is its fields joined by slashes. */
  lemma ParsedFields(protocolId: string)
    requires ParseProtocolID(protocolId).Success?
    ensures var p := ParseProtocolID(protocolId).value;
            protocolId == p.protocolPrefix + "/" + p.method_ + "/" + VersionText(protocolId) + "/"
                + EncodingText(p.encoding)
  {
    var parts := Split(protocolId, '/');
    var n := |parts|;
    JoinOfSplit(protocolId, '/');
    assert parts[..n - 1][..n - 2] == parts[..n - 2];
    assert parts[..n - 2][..n - 3] == parts[..n - 3];
    assert Join(parts, '/') == Join(parts[..n - 1], '/') + "/" + parts[n - 1];
    assert Join(parts[..n - 1], '/') == Join(parts[..n - 2], '/') + "/" + parts[n - 2];
    assert Join(parts[..n - 2], '/') == Join(parts[..n - 3], '/') + "/" + parts[n - 3];
  }

  /** Parsing and then printing gives the identifier back exactly when its version is written
      without leading zeros and not as minus zero. */
  lemma FormatOfParseExactlyWhen(protocolId: string)
    requires ParseProtocolID(protocolId).Success?
    ensures FormatProtocolID(ParseProtocolID(protocolId).value) == protocolId <==> CanonicalInt(VersionText(protocolId))
  {
    var p, v := ParseProtocolID(protocolId).value, VersionText(protocolId);
    ParsedFields(protocolId);
    IntTextOfParse(v);
    var front, back := p.protocolPrefix + "/" + p.method_ + "/", "/" + EncodingText(p.encoding);
    assert protocolId == front + v + back;
    assert FormatProtocolID(p) == front + IntText(p.version) + back;
    if front + IntText(p.version) + back == front + v + back {
      CancelAround(front, IntText(p.version), v, back);
    }
  }

  lemma CancelAround(front: string, a: string, b: string, back: string)
    requires front + a + back == front + b + back
    ensures a == b
  {
    var s := front + a + back;
    assert |a| == |b|;
    assert a == s[|front|..|front| + |a|] && b == s[|front|..|front| + |b|];
  }

  ghost predicate IsDigits(s: string) {
    |s| > 0 && forall i :: 0 <= i < |s| ==> 48 <= s[i] as int <= 57
  }

  /** A version is written as digits, perhaps behind a minus sign. */
  ghost predicate IsVersion(v: string) {
    IsDigits(v) || (|v| > 0 && v[0] == '-' && IsDigits(v[1..]))
  }

  lemma IsIntTextExactlyWhen(v: string)
    ensures IsIntText(v) <==> IsVersion(v)
  {
    DigitsExactlyWhen(v);
    if |v| > 0 {
      DigitsExactlyWhen(v[1..]);
    }
  }

  lemma DigitsExactlyWhen(s: string)
    ensures IsDigits(s) <==> s != "" && AllDigits(s)
  {
  }

  /** Of the strings with three slashes or more, those parse that end in the known encoding behind a version: the
      method is what stands before that, and the prefix all the rest. Without three slashes none does. */
  lemma ParsesExactlyWhen(prefix: string, method_: string, version: string, encoding: string)
    requires '/' !in method_ && '/' !in version && '/' !in encoding
    ensures var r := ParseProtocolID(prefix + "/" + method_ + "/" + version + "/" + encoding);
            && (r.Success? <==> encoding == "ssz_snappy" && IsVersion(version))
            && (r.Success? ==>
                  && r.value.protocolPrefix == prefix && r.value.method_ == method_
                  && IsIntText(version) && r.value.version == ParseInt(version))
  {
    var s := prefix + "/" + method_ + "/" + version + "/" + encoding;
    SplitOfFields(prefix, method_, version, encoding);
    IsIntTextExactlyWhen(version);
    var parts := Split(s, '/');
    var n := |parts|;
    assert parts[n - 1] == encoding && parts[n - 2] == version && parts[n - 3] == method_;
    assert parts[..n - 3] == Split(prefix, '/');
    JoinOfSplit(prefix, '/');
    forall e: Encoding ensures EncodingText(e) == "ssz_snappy" {
    }
  }

  /** The printed form. */
  lemma PrintedForm(p: Protocol)
    ensures FormatProtocolID(p) == p.protocolPrefix + "/" + p.method_ + "/" + IntText(p.version) + "/ssz_snappy"
  {
    assert "/" + "ssz_snappy" == "/ssz_snappy";
  }
}
