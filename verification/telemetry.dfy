/** The shape of the telemetry both firmware variants publish: one message
    per quantity, on the topic `<quantity>/<client id>`. */
module Telemetry {
  import opened Results

  /** A message body: text already rendered ("%d"), or a float to be rendered
      with a fixed number of decimals ("%.1f", "%.0f"), kept symbolic. */
  datatype Payload = Text(text: string) | Fixed(value: real, places: nat)

  datatype Message = Message(topic: string, payload: Payload)

  const CO2_PREFIX: string := "co2"
  const TEMPERATURE_PREFIX: string := "temp"
  const HUMIDITY_PREFIX: string := "rh"
  const PM_PREFIX: string := "pm2.5"

  /** `sprintf(topic, "<prefix>/%s", client_id)`. */
  function Topic(prefix: string, clientId: string): (t: string)
    ensures |t| == |prefix| + 1 + |clientId|
    ensures t[..|prefix|] == prefix && t[|prefix|] == '/' && t[|prefix| + 1..] == clientId
  {
    prefix + "/" + clientId
  }

  /** The index of the first '/' in a string. */
  function FirstSlash(s: string): (r: Option<nat>)
    ensures r.Some? ==> r.value < |s| && s[r.value] == '/' && '/' !in s[..r.value]
    ensures r.None? ==> '/' !in s
  {
    if |s| == 0 then None
    else if s[0] == '/' then Some(0)
    else
      var rest := FirstSlash(s[1..]);
      if rest.Some? then
        assert s[..rest.value + 1] == [s[0]] + s[1..][..rest.value];
        Some(rest.value + 1)
      else
        assert s == [s[0]] + s[1..];
        None
  }

  /** Reads a topic back into quantity and client id, splitting at the first
      '/'. */
  function SplitTopic(topic: string): (r: Option<(string, string)>)
    ensures r.Some? ==> topic == r.value.0 + "/" + r.value.1 && '/' !in r.value.0
  {
    match FirstSlash(topic)
    case None => None
    case Some(i) =>
      assert topic == topic[..i] + "/" + topic[i + 1..];
      Some((topic[..i], topic[i + 1..]))
  }

  /** A topic names its quantity and client id unambiguously: splitting it
      gives both back, provided the quantity contains no '/'. */
  lemma TopicRoundTrip(prefix: string, clientId: string)
    requires '/' !in prefix
    ensures SplitTopic(Topic(prefix, clientId)) == Some((prefix, clientId))
  {
  }

  /** The four quantities have distinct prefixes free of '/', so their topics
      never collide. */
  lemma PrefixesDistinct(clientId: string)
    ensures '/' !in CO2_PREFIX && '/' !in TEMPERATURE_PREFIX && '/' !in HUMIDITY_PREFIX && '/' !in PM_PREFIX
    ensures var topics := [Topic(CO2_PREFIX, clientId), Topic(TEMPERATURE_PREFIX, clientId),
                           Topic(HUMIDITY_PREFIX, clientId), Topic(PM_PREFIX, clientId)];
      forall i, j :: 0 <= i < j < 4 ==> topics[i] != topics[j]
  {
    var prefixes := [CO2_PREFIX, TEMPERATURE_PREFIX, HUMIDITY_PREFIX, PM_PREFIX];
    forall i, j | 0 <= i < j < 4
      ensures Topic(prefixes[i], clientId) != Topic(prefixes[j], clientId)
    {
      TopicRoundTrip(prefixes[i], clientId);
      TopicRoundTrip(prefixes[j], clientId);
    }
  }
}
