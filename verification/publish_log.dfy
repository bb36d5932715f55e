/**
  The broker's publish log (the `publish` event handler in server.ts): one
  line per published message, except for the broker's own `$SYS` topics.

  `iso` stands for `new Date().toISOString()`, `clientId` for the id of the
  publishing client (None when the broker itself publishes), and `payload`
  for the payload buffer already turned into text.
 */
module PublishLog {
  import opened Wrappers
  import opened Strings

  const SysPrefix: string := "$SYS"
  const BrokerLabel: string := "broker"

  /** `client?.id || "broker"`: an absent client or an empty id is logged as the broker. */
  function ClientLabel(clientId: Option<string>): (r: string)
    ensures r != ""
    ensures r == "broker" <==> clientId.None? || clientId.value == "" || clientId.value == "broker"
    ensures clientId.Some? && clientId.value != "" ==> r == clientId.value
  {
    if clientId.None? || clientId.value == "" then BrokerLabel else clientId.value
  }

  /** The line written for a publish, or None when the topic is a `$SYS` topic. */
  function PublishLogLine(iso: string, clientId: Option<string>, topic: string, payload: string): (r: Option<string>)
    ensures r.None? <==> StartsWith(topic, SysPrefix)
    ensures r.Some? ==> StartsWith(r.value, iso) && |r.value| > |iso| && r.value[|r.value| - 1] == '\n'
  {
    if StartsWith(topic, SysPrefix) then None
    else
      var line := iso + " PUBLISH " + ClientLabel(clientId) + " " + topic + " " + payload + "\n";
      assert line[..|iso|] == iso;
      Some(line)
  }

  // ---------------------------------------------------------------------
  // Reading a line back
  // ---------------------------------------------------------------------

  datatype LogRecord = LogRecord(time: string, client: string, topic: string, payload: string)

  /** Splits `s` at its first space. */
  function SplitAtSpace(s: string): (r: Option<(string, string)>)
    ensures r.Some? ==> s == r.value.0 + " " + r.value.1 && ' ' !in r.value.0
    ensures r.None? ==> ' ' !in s
  {
    if s == [] then None
    else if s[0] == ' ' then Some(([], s[1..]))
    else
      match SplitAtSpace(s[1..])
      case None => None
      case Some((a, b)) =>
        assert s == [s[0]] + s[1..];
        Some(([s[0]] + a, b))
  }

  /** The first space after a space-free field is the one that ends it. */
  lemma {:induction false} SplitAtSpaceOf(a: string, b: string)
    requires ' ' !in a
    ensures SplitAtSpace(a + " " + b) == Some((a, b))
    decreases |a|
  {
    var s := a + " " + b;
    if a != [] {
      assert s[1..] == a[1..] + " " + b;
      SplitAtSpaceOf(a[1..], b);
      assert a == [a[0]] + a[1..];
    }
  }

  /**
    A log line as a reader of the log takes it apart: time, the word
    PUBLISH, client, topic at the first three spaces after it, and the
    payload up to the final newline.
   */
  function ParseLogLine(line: string): Option<LogRecord> {
    if line == [] || line[|line| - 1] != '\n' then None
    else
      match SplitAtSpace(line[..|line| - 1])
      case None => None
      case Some((time, rest)) =>
        match SplitAtSpace(rest)
        case None => None
        case Some((word, rest')) =>
          if word != "PUBLISH" then None
          else
            match SplitAtSpace(rest')
            case None => None
            case Some((client, rest'')) =>
              match SplitAtSpace(rest'')
              case None => None
              case Some((topic, payload)) => Some(LogRecord(time, client, topic, payload))
  }

  /**
    A logged publish reads back as the publish that was logged, as long as
    the time, the client label and the topic hold no space (the payload may
    hold anything, spaces and newlines included).
   */
  lemma {:induction false} LogLineRoundTrip(iso: string, clientId: Option<string>, topic: string, payload: string)
    requires !StartsWith(topic, SysPrefix)
    requires ' ' !in iso && ' ' !in ClientLabel(clientId) && ' ' !in topic
    ensures ParseLogLine(PublishLogLine(iso, clientId, topic, payload).value)
      == Some(LogRecord(iso, ClientLabel(clientId), topic, payload))
  {
    var lbl := ClientLabel(clientId);
    var line := PublishLogLine(iso, clientId, topic, payload).value;
    var rest'' := topic + " " + payload;
    var rest' := lbl + " " + rest'';
    var rest := "PUBLISH" + " " + rest';
    var body := iso + " " + rest;
    assert line == body + "\n";
    assert line[..|line| - 1] == body;
    SplitAtSpaceOf(iso, rest);
    SplitAtSpaceOf("PUBLISH", rest');
    SplitAtSpaceOf(lbl, rest'');
    SplitAtSpaceOf(topic, payload);
  }

  /** With newline-free fields, each publish is exactly one line of the log. */
  lemma OneLinePerPublish(iso: string, clientId: Option<string>, topic: string, payload: string)
    requires !StartsWith(topic, SysPrefix)
    requires '\n' !in iso && '\n' !in ClientLabel(clientId) && '\n' !in topic && '\n' !in payload
    ensures var line := PublishLogLine(iso, clientId, topic, payload).value;
      '\n' !in line[..|line| - 1] && line[|line| - 1] == '\n'
  {
    var line := PublishLogLine(iso, clientId, topic, payload).value;
    assert line[..|line| - 1] == iso + " PUBLISH " + ClientLabel(clientId) + " " + topic + " " + payload;
  }

  /** Any topic starting with "$SYS", such as "$SYS/broker/uptime" or "$SYSTEM", is kept out of the log. */
  lemma SysTopicsSuppressed(iso: string, clientId: Option<string>, payload: string)
    ensures PublishLogLine(iso, clientId, "$SYS/broker/uptime", payload) == None
    ensures PublishLogLine(iso, clientId, "$SYSTEM", payload) == None
    ensures PublishLogLine(iso, clientId, "$sys/x", payload).Some?
    ensures PublishLogLine(iso, clientId, "test/$SYS", payload).Some?
  {
    assert "$SYS/broker/uptime"[..4] == SysPrefix;
    assert "$SYSTEM"[..4] == SysPrefix;
    assert "$sys/x"[1] != SysPrefix[1];
    assert "test/$SYS"[0] != SysPrefix[0];
  }
}
