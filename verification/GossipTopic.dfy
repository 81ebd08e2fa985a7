/** Gossip topic strings and their cache, packages/node/src/network/gossip/topic.ts. */
module GossipTopics {
  import opened Wrappers

  datatype GossipType = user_operation

  datatype GossipEncoding = ssz_snappy

  const DEFAULT_ENCODING := ssz_snappy

  /** An optional field of an object: left out, there but undefined, or there with a value. */
  datatype Field<T> = Absent | Undefined | Given(value: T) {
    /** The operator `??`. */
    function GetOr(default: T): T {
      if Given? then value else default
    }
  }

  /** A topic whose encoding may be left out. */
  datatype GossipTopic = GossipTopic(kind: GossipType, mempool: string, encoding: Field<GossipEncoding>)

  /** A topic with every field present. */
  datatype FullTopic = FullTopic(kind: GossipType, mempool: string, encoding: GossipEncoding)

  function Completed(t: GossipTopic): FullTopic {
    FullTopic(t.kind, t.mempool, t.encoding.GetOr(DEFAULT_ENCODING))
  }

  function TypeText(k: GossipType): string {
    match k
    case user_operation => "user_operation"
  }

  function EncodingText(e: GossipEncoding): string {
    match e
    case ssz_snappy => "ssz_snappy"
  }

  const PREFIX := "/account_abstraction/"

  function StringifyGossipTopic(t: GossipTopic): string {
    StringifyFull(Completed(t))
  }

  function StringifyFull(t: FullTopic): string {
    PREFIX + Fields(t.mempool, TypeText(t.kind), EncodingText(t.encoding))
  }

  function Fields(mempool: string, kind: string, encoding: string): string {
    mempool + "/" + kind + "/" + encoding
  }

  // ----- The regular expression `^/account_abstraction/(\w+)/(\w+)/(\w+)` -----

  predicate IsWordChar(c: char) {
    'a' <= c <= 'z' || 'A' <= c <= 'Z' || '0' <= c <= '9' || c == '_'
  }

  predicate IsWord(s: string) {
    s != "" && forall i :: 0 <= i < |s| ==> IsWordChar(s[i])
  }

  /** Where the longest run of word characters at the start of `s` ends. No shorter run can match,
      since what follows each group is a slash or the end of the pattern. */
  function WordEnd(s: string): (n: nat)
    ensures n <= |s|
    ensures forall i :: 0 <= i < n ==> IsWordChar(s[i])
    ensures n < |s| ==> !IsWordChar(s[n])
  {
    if s == "" || !IsWordChar(s[0]) then 0 else 1 + WordEnd(s[1..])
  }

  /** A word, and what follows the slash after it. */
  function WordThenSlash(s: string): Option<(string, string)> {
    var n := WordEnd(s);
    if n == 0 || n == |s| || s[n] != '/' then None else Some((s[..n], s[n + 1..]))
  }

  /** The three groups of the pattern, in what follows its fixed prefix. */
  function MatchFields(s: string): Option<(string, string, string)> {
    match WordThenSlash(s)
    case None => None
    case Some((mempool, rest)) =>
      match WordThenSlash(rest)
      case None => None
      case Some((kind, rest)) =>
        var n := WordEnd(rest);
        if n == 0 then None else Some((mempool, kind, rest[..n]))
  }

  function MatchTopic(s: string): Option<(string, string, string)> {
    if PREFIX <= s then MatchFields(s[|PREFIX|..]) else None
  }

  function ParseGossipTopic(s: string): Result<FullTopic, string> {
    match MatchTopic(s)
    case None => Failure("Must match regex")
    case Some((mempool, kind, encoding)) =>
      if encoding != EncodingText(ssz_snappy) then Failure("Unknown encoding")
      else if kind != TypeText(user_operation) then Failure("Unknown gossip type")
      else Success(FullTopic(user_operation, mempool, ssz_snappy))
  }

  /** Nothing, or something that does not go on with the last word. */
  predicate EndsWord(rest: string) {
    rest != "" ==> !IsWordChar(rest[0])
  }

  lemma {:induction false} WordEndOfAppend(w: string, rest: string)
    requires forall i :: 0 <= i < |w| ==> IsWordChar(w[i])
    requires EndsWord(rest)
    ensures WordEnd(w + rest) == |w|
  {
    if w == "" {
      assert w + rest == rest;
    } else {
      WordEndOfAppend(w[1..], rest);
      assert (w + rest)[1..] == w[1..] + rest;
    }
  }

  lemma WordBeforeSlash(s: string)
    requires WordThenSlash(s).Some?
    ensures var (w, rest) := WordThenSlash(s).value; IsWord(w) && s == w + "/" + rest
  {
    var n := WordEnd(s);
    assert s == s[..n] + [s[n]] + s[n + 1..];
  }

  lemma WordThenSlashOfAppend(w: string, rest: string)
    requires IsWord(w)
    ensures WordThenSlash(w + "/" + rest) == Some((w, rest))
  {
    var s := w + "/" + rest;
    assert s == w + ("/" + rest);
    WordEndOfAppend(w, "/" + rest);
    assert s[..|w|] == w && s[|w| + 1..] == rest;
  }

  lemma RegroupFields(mempool: string, kind: string, encoding: string, rest: string)
    ensures Fields(mempool, kind, encoding) + rest == mempool + "/" + (kind + "/" + (encoding + rest))
  {
  }

  lemma MatchOfFields(mempool: string, kind: string, encoding: string, rest: string)
    requires IsWord(mempool) && IsWord(kind) && IsWord(encoding) && EndsWord(rest)
    ensures MatchFields(Fields(mempool, kind, encoding) + rest) == Some((mempool, kind, encoding))
  {
    RegroupFields(mempool, kind, encoding, rest);
    WordThenSlashOfAppend(mempool, kind + "/" + (encoding + rest));
    WordThenSlashOfAppend(kind, encoding + rest);
    WordEndOfAppend(encoding, rest);
    assert (encoding + rest)[..|encoding|] == encoding;
  }

  /** A match is the three groups, then whatever does not go on with the last. */
  lemma FieldsOfMatch(s: string) returns (rest: string)
    requires MatchFields(s).Some?
    ensures var (mempool, kind, encoding) := MatchFields(s).value;
            IsWord(mempool) && EndsWord(rest) && s == Fields(mempool, kind, encoding) + rest
  {
    var (mempool, s2) := WordThenSlash(s).value;
    WordBeforeSlash(s);
    var (kind, s3) := WordThenSlash(s2).value;
    WordBeforeSlash(s2);
    var n := WordEnd(s3);
    rest := s3[n..];
    var encoding := s3[..n];
    assert s3 == encoding + rest;
    RegroupFields(mempool, kind, encoding, rest);
  }

  /** A printed topic parses back, even when something that is not a word character follows it. */
  lemma ParseOfPrinted(t: FullTopic, rest: string)
    requires IsWord(t.mempool) && EndsWord(rest)
    ensures ParseGossipTopic(StringifyFull(t) + rest) == Success(t)
  {
    var kind, encoding := TypeText(t.kind), EncodingText(t.encoding);
    assert IsWord(kind) && IsWord(encoding);
    var fields := Fields(t.mempool, kind, encoding);
    var s := StringifyFull(t) + rest;
    assert s == PREFIX + (fields + rest) && s[|PREFIX|..] == fields + rest;
    MatchOfFields(t.mempool, kind, encoding, rest);
    assert MatchTopic(s) == Some((t.mempool, kind, encoding));
    match t.kind case user_operation => match t.encoding case ssz_snappy =>
  }

  /** `parseGossipTopic` undoes `stringifyGossipTopic`, filling in the default encoding, exactly on
      non-empty word-character mempool ids. */
  lemma ParseOfStringifyExactlyWhen(t: GossipTopic)
    ensures ParseGossipTopic(StringifyGossipTopic(t)) == Success(Completed(t)) <==> IsWord(t.mempool)
  {
    if IsWord(t.mempool) {
      ParseOfPrinted(Completed(t), "");
      assert StringifyGossipTopic(t) + "" == StringifyGossipTopic(t);
    }
  }

  lemma ParsedIsPrinted(s: string, t: FullTopic) returns (rest: string)
    requires ParseGossipTopic(s) == Success(t)
    ensures IsWord(t.mempool) && EndsWord(rest) && s == StringifyFull(t) + rest
  {
    var s1 := s[|PREFIX|..];
    assert s == PREFIX + s1;
    var groups := MatchFields(s1).value;
    assert groups == (t.mempool, TypeText(t.kind), EncodingText(t.encoding));
    rest := FieldsOfMatch(s1);
    assert PREFIX + (Fields(groups.0, groups.1, groups.2) + rest)
        == PREFIX + Fields(groups.0, groups.1, groups.2) + rest;
  }

  /** The strings that parse to a topic are exactly its printed form and that form followed by
      something that does not go on with its last word. */
  lemma ParsesExactlyPrinted(s: string, t: FullTopic)
    ensures ParseGossipTopic(s) == Success(t)
            <==> IsWord(t.mempool) && exists rest :: EndsWord(rest) && s == StringifyFull(t) + rest
  {
    if ParseGossipTopic(s) == Success(t) {
      var rest := ParsedIsPrinted(s, t);
    }
    if IsWord(t.mempool) && exists rest :: EndsWord(rest) && s == StringifyFull(t) + rest {
      var rest :| EndsWord(rest) && s == StringifyFull(t) + rest;
      ParseOfPrinted(t, rest);
    }
  }

  /** The printed form, letter by letter. */
  lemma PrintedForm(t: GossipTopic)
    ensures StringifyGossipTopic(t) == "/account_abstraction/" + t.mempool + "/user_operation/ssz_snappy"
  {
    assert "/" + "user_operation" + "/" + "ssz_snappy" == "/user_operation/ssz_snappy";
  }

  /** A word is made of letters, digits and underscores, by their codes. */
  lemma WordsExactlyWhen(s: string)
    ensures IsWord(s)
            <==> |s| > 0 && forall i :: 0 <= i < |s| ==>
                var n := s[i] as int; 97 <= n <= 122 || 65 <= n <= 90 || 48 <= n <= 57 || n == 95
  {
  }

  // ----- The cache -----

  /** What the parser says, as an object of the cache. */
  function Parsed(topicStr: string): Result<GossipTopic, string> {
    match ParseGossipTopic(topicStr)
    case Success(t) => Success(GossipTopic(t.kind, t.mempool, Given(t.encoding)))
    case Failure(error) => Failure(error)
  }

  /** The object `setTopic` stores: spreading the topic over the default keeps an encoding that is there
      but undefined. */
  function Spread(t: GossipTopic): GossipTopic {
    if t.encoding.Absent? then t.(encoding := Given(DEFAULT_ENCODING)) else t
  }

  class GossipTopicCache {
    var topicsByTopicStr: map<string, GossipTopic>

    constructor ()
      ensures topicsByTopicStr == map[]
    {
      topicsByTopicStr := map[];
    }

    /** Every cached answer is the parser's. */
    ghost predicate Faithful()
      reads this
    {
      forall s <- topicsByTopicStr :: Parsed(s) == Success(topicsByTopicStr[s])
    }

    /** With a faithful cache the answer, or the failure, is always the parser's own. */
    method GetTopic(topicStr: string) returns (r: Result<GossipTopic, string>)
      modifies this
      ensures old(Faithful()) ==> r == Parsed(topicStr) && Faithful()
      ensures topicsByTopicStr
              == if r.Success? then old(topicsByTopicStr)[topicStr := r.value] else old(topicsByTopicStr)
      ensures topicStr in old(topicsByTopicStr) ==> r == Success(old(topicsByTopicStr)[topicStr])
      ensures topicStr !in old(topicsByTopicStr) ==> r == Parsed(topicStr)
    {
      if topicStr in topicsByTopicStr {
        assert topicsByTopicStr[topicStr := topicsByTopicStr[topicStr]] == topicsByTopicStr;
        return Success(topicsByTopicStr[topicStr]);
      }
      r := Parsed(topicStr);
      if r.Success? {
        topicsByTopicStr := topicsByTopicStr[topicStr := r.value];
      }
    }

    method GetKnownTopic(topicStr: string) returns (r: Option<GossipTopic>)
      ensures r.Some? <==> topicStr in topicsByTopicStr
      ensures Faithful() && r.Some? ==> Parsed(topicStr) == Success(r.value)
    {
      return if topicStr in topicsByTopicStr then Some(topicsByTopicStr[topicStr]) else None;
    }

    /** Keeps a faithful cache faithful exactly when the string is known already or parses to the stored
        object. For a new string that is the topic's printed form this means a word as mempool id and an
        encoding that is not explicitly undefined. */
    method SetTopic(topicStr: string, topic: GossipTopic)
      modifies this
      ensures topicsByTopicStr
              == if topicStr in old(topicsByTopicStr) then old(topicsByTopicStr)
                 else old(topicsByTopicStr)[topicStr :=
                     GossipTopic(topic.kind, topic.mempool,
                                 if topic.encoding == Absent then Given(ssz_snappy) else topic.encoding)]
      ensures old(Faithful()) ==>
                (Faithful() <==> topicStr in old(topicsByTopicStr) || Parsed(topicStr) == Success(Spread(topic)))
      ensures old(Faithful()) && topicStr !in old(topicsByTopicStr) && topicStr == StringifyGossipTopic(topic) ==>
                (Faithful() <==> IsWord(topic.mempool) && !topic.encoding.Undefined?)
    {
      if topicStr !in topicsByTopicStr {
        topicsByTopicStr := topicsByTopicStr[topicStr := Spread(topic)];
        ParseOfStringifyExactlyWhen(topic);
        assert topicsByTopicStr[topicStr] == Spread(topic);
      }
    }
  }
}
