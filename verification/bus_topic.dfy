/** Topic names of the bus: building from a key, validating, parsing, printing. */
module BusTopic {
  import opened Prelude
  import opened Strings

  datatype Key = Key(symbol: string, mic: string)
  {
    function PartitionKey(): string {
      if mic == "" then symbol else mic + "." + symbol
    }
  }

  datatype TopicBuilder = TopicBuilder(env: string, topicPrefix: string)

  datatype TopicError = EmptyTopic | TooFewParts | EmptyEnvironment | InvalidDomain | BadVersion

  datatype TopicComponents = TopicComponents(prefix: string, env: string, domain: string, version: string, subtopic: string)
  {
    /** TopicComponents.String. */
    function Print(): string {
      if subtopic == "" then prefix + "." + env + "." + domain + "." + version
      else prefix + "." + env + "." + domain + "." + version + "." + subtopic
    }
  }

  function BuildSubtopic(key: Key): string {
    if key.mic == "" then key.symbol else key.mic + "." + key.symbol
  }

  function Build(b: TopicBuilder, domain: string, version: string, subtopic: string): string {
    b.topicPrefix + "." + b.env + "." + domain + "." + version + "." + subtopic
  }

  function BuildBarsTopic(b: TopicBuilder, key: Key, version: string): string {
    Build(b, "bars", version, BuildSubtopic(key))
  }

  function BuildQuotesTopic(b: TopicBuilder, key: Key, version: string): string {
    Build(b, "ticks", version, BuildSubtopic(key))
  }

  function BuildFundamentalsTopic(b: TopicBuilder, key: Key, version: string): string {
    Build(b, "fundamentals", version, key.symbol)
  }

  predicate ValidDomain(d: string) {
    || d == "bars" || d == "ticks" || d == "fundamentals" || d == "news" || d == "fx" || d == "signals"
    || d == "orders" || d == "fills" || d == "positions" || d == "metrics" || d == "dlq" || d == "control"
  }

  function ValidateTopic(topic: string): (r: Result<(), TopicError>)
    ensures var parts := Split(topic, '.');
      r.Ok? <==> |parts| >= 4 && parts[1] != "" && ValidDomain(parts[2]) && "v" <= parts[3]
    ensures r == Err(EmptyTopic) <==> topic == ""
    ensures r == Err(TooFewParts) <==> topic != "" && |Split(topic, '.')| < 4
    ensures r == Err(InvalidDomain) ==> !ValidDomain(Split(topic, '.')[2])
  {
    var parts := Split(topic, '.');
    if topic == "" then Err(EmptyTopic)
    else if |parts| < 4 then Err(TooFewParts)
    else if parts[1] == "" then Err(EmptyEnvironment)
    else if !ValidDomain(parts[2]) then Err(InvalidDomain)
    else if !("v" <= parts[3]) then Err(BadVersion)
    else Ok(())
  }

  function ParseTopic(topic: string): Result<TopicComponents, TopicError> {
    match ValidateTopic(topic)
    case Err(e) => Err(e)
    case Ok(_) =>
      var parts := Split(topic, '.');
      Ok(TopicComponents(parts[0], parts[1], parts[2], parts[3], Join(parts[4..], '.')))
  }

  predicate DotFree(s: string) {
    '.' !in s
  }

  lemma SplitBuilt(a: string, b: string, c: string, d: string, rest: string)
    requires DotFree(a) && DotFree(b) && DotFree(c) && DotFree(d)
    ensures Split(a + "." + b + "." + c + "." + d + "." + rest, '.') == [a, b, c, d] + Split(rest, '.')
  {
    hide Split;
    var r3 := d + ['.'] + rest;
    var r2 := c + ['.'] + r3;
    var r1 := b + ['.'] + r2;
    assert a + "." + b + "." + c + "." + d + "." + rest == a + ['.'] + r1;
    SplitHead(a, r1, '.');
    SplitHead(b, r2, '.');
    SplitHead(c, r3, '.');
    SplitHead(d, rest, '.');
  }

  /** What is built in a valid domain parses back to its own components if and only if prefix,
      environment and version are dot-free, the environment is non-empty and the version starts with
      "v"; the subtopic may be anything, dots included. */
  lemma ParseInvertsBuild(b: TopicBuilder, domain: string, version: string, subtopic: string)
    requires ValidDomain(domain)
    ensures ParseTopic(Build(b, domain, version, subtopic))
            == Ok(TopicComponents(b.topicPrefix, b.env, domain, version, subtopic))
       <==> DotFree(b.topicPrefix) && DotFree(b.env) && DotFree(version) && b.env != "" && "v" <= version
  {
    hide Split, Join, ValidDomain, Build;
    var topic := Build(b, domain, version, subtopic);
    if DotFree(b.topicPrefix) && DotFree(b.env) && DotFree(version) {
      PartsOfBuilt(b, domain, version, subtopic);
      assert Split(topic, '.')[4..] == Split(subtopic, '.');
      JoinSplit(subtopic, '.');
    } else if ParseTopic(topic).Ok? {
      SplitPartsFree(topic, '.');
      assert DotFree(Split(topic, '.')[0]) && DotFree(Split(topic, '.')[1]) && DotFree(Split(topic, '.')[3]);
    }
  }

  lemma PartsOfBuilt(b: TopicBuilder, domain: string, version: string, subtopic: string)
    requires ValidDomain(domain) && DotFree(b.topicPrefix) && DotFree(b.env) && DotFree(version)
    ensures Split(Build(b, domain, version, subtopic), '.') == [b.topicPrefix, b.env, domain, version] + Split(subtopic, '.')
    ensures Build(b, domain, version, subtopic) != ""
  {
    hide Split, ValidDomain;
    DomainIsDotFree(domain);
    SplitBuilt(b.topicPrefix, b.env, domain, version, subtopic);
  }

  /** The domains, and no others, are valid. */
  lemma TwelveDomains(domain: string)
    ensures ValidDomain(domain)
       <==> domain in ["bars", "ticks", "fundamentals", "news", "fx", "signals",
                       "orders", "fills", "positions", "metrics", "dlq", "control"]
  {
  }

  lemma DomainIsDotFree(domain: string)
    requires ValidDomain(domain)
    ensures DotFree(domain)
  {
  }

  /** The parts of a bars topic, in order: the market code comes before the symbol, and a key without
      one has no part for it. Its last parts are those of the key's partition key. */
  lemma PartsOfBarsTopic(b: TopicBuilder, key: Key, version: string)
    requires DotFree(b.topicPrefix) && DotFree(b.env) && DotFree(version) && DotFree(key.mic) && DotFree(key.symbol)
    ensures Split(BuildBarsTopic(b, key, version), '.')
            == if key.mic == "" then [b.topicPrefix, b.env, "bars", version, key.symbol]
               else [b.topicPrefix, b.env, "bars", version, key.mic, key.symbol]
    ensures Split(BuildBarsTopic(b, key, version), '.')[4..] == Split(key.PartitionKey(), '.')
  {
    hide Split, Build;
    PartsOfBuilt(b, "bars", version, BuildSubtopic(key));
    PartsOfKey(key);
    assert BuildSubtopic(key) == key.PartitionKey();
  }

  lemma PartsOfKey(key: Key)
    requires DotFree(key.mic) && DotFree(key.symbol)
    ensures Split(BuildSubtopic(key), '.') == if key.mic == "" then [key.symbol] else [key.mic, key.symbol]
  {
    NoSeparator(key.symbol);
    if key.mic != "" {
      SplitHead(key.mic, key.symbol, '.');
    }
  }

  lemma {:induction false} NoSeparator(s: string)
    requires DotFree(s)
    ensures Split(s, '.') == [s]
  {
  }

  /** Bars and quotes topics give back every component, with the key's partition key as subtopic. */
  lemma ParseInvertsBuildForKeys(b: TopicBuilder, key: Key, version: string)
    requires DotFree(b.topicPrefix) && DotFree(b.env) && DotFree(version) && b.env != "" && "v" <= version
    ensures ParseTopic(BuildBarsTopic(b, key, version))
            == Ok(TopicComponents(b.topicPrefix, b.env, "bars", version, key.PartitionKey()))
    ensures ParseTopic(BuildQuotesTopic(b, key, version))
            == Ok(TopicComponents(b.topicPrefix, b.env, "ticks", version, key.PartitionKey()))
    ensures ParseTopic(BuildFundamentalsTopic(b, key, version))
            == Ok(TopicComponents(b.topicPrefix, b.env, "fundamentals", version, key.symbol))
  {
    hide ParseTopic, Build;
    ParseInvertsBuild(b, "bars", version, BuildSubtopic(key));
    ParseInvertsBuild(b, "ticks", version, BuildSubtopic(key));
    ParseInvertsBuild(b, "fundamentals", version, key.symbol);
  }

  /** Printing a parsed topic gives the topic back, except exactly when it is four components and a
      single trailing dot. */
  lemma PrintInvertsParse(topic: string)
    requires ParseTopic(topic).Ok?
    ensures var parts := Split(topic, '.');
      ParseTopic(topic).value.Print() == topic <==> !(|parts| == 5 && parts[4] == "")
  {
    hide Split, Join, ValidDomain;
    var parts := Split(topic, '.');
    JoinSplit(topic, '.');
    JoinFour(parts);
    var subtopic := Join(parts[4..], '.');
    EmptyJoin(parts[4..]);
    if |parts| > 4 && subtopic == "" {
      assert parts[4..] == [""];
      assert |parts| == 5 && parts[4] == "";
    }
    if |parts| == 5 && parts[4] == "" {
      assert parts[4..] == [""];
    }
  }

  lemma JoinFour(parts: seq<string>)
    requires |parts| >= 4
    ensures Join(parts, '.')
            == parts[0] + "." + parts[1] + "." + parts[2] + "." + parts[3]
               + if |parts| == 4 then "" else "." + Join(parts[4..], '.')
  {
    hide Join;
    var p1, p2, p3 := parts[1..], parts[2..], parts[3..];
    assert p1[1..] == p2 && p2[1..] == p3 && p3[1..] == parts[4..];
    JoinStep(parts);
    JoinStep(p1);
    JoinStep(p2);
    JoinStep(p3);
    var tail := if |parts| == 4 then "" else "." + Join(parts[4..], '.');
    FourPieces(parts[0], parts[1], parts[2], parts[3], tail);
  }

  lemma FourPieces(a: string, b: string, c: string, d: string, tail: string)
    ensures a + ("." + (b + ("." + (c + ("." + (d + tail)))))) == a + "." + b + "." + c + "." + d + tail
  {
    var r := d + tail;
    assert a + "." + b + "." + c + "." + d + tail == a + "." + b + "." + c + "." + r;
    var q := c + ("." + r);
    assert a + "." + b + "." + c + "." + r == a + "." + b + "." + q;
  }

  lemma JoinStep(parts: seq<string>)
    requires |parts| >= 1
    ensures Join(parts, '.') == parts[0] + if |parts| == 1 then "" else "." + Join(parts[1..], '.')
  {
  }

  lemma EmptyJoin(parts: seq<string>)
    ensures Join(parts, '.') == "" <==> parts == [] || parts == [""]
  {
  }
}
