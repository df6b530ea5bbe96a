/**
 * The app_config table as the capture worker reads it: config_value with its
 * defaults, and the blocked_domains list.
 */
module Settings {
  import opened Wrappers
  import opened Text

  const MaxRetriesKey: string := "max_capture_retries"
  const TimeoutKey: string := "capture_timeout_sec"
  const BlockedDomainsKey: string := "blocked_domains"

  /** DEFAULT_CONFIG. */
  const DefaultConfig: map<string, string> := map[
    "max_storage_gb" := "5",
    "max_concurrent_captures" := "2",
    TimeoutKey := "90",
    MaxRetriesKey := "2",
    BlockedDomainsKey := "",
    "disk_alert_pct" := "85"
  ]

  /** config_value(key): the stored value, or the default when the row is missing. */
  function ConfigValue(config: map<string, string>, key: string): string
    requires key in config || key in DefaultConfig
  {
    if key in config then config[key] else DefaultConfig[key]
  }

  /** [d.strip() for d in pieces if d.strip()] */
  function StrippedEntries(pieces: seq<string>): (r: seq<string>)
    ensures forall i :: 0 <= i < |r| ==> r[i] != "" && Trimmed(r[i])
  {
    if pieces == [] then []
    else
      StripIsTrimmed(pieces[0]);
      (if Strip(pieces[0]) != "" then [Strip(pieces[0])] else []) + StrippedEntries(pieces[1..])
  }

  /**
   * A domain is in the list exactly when it is non-blank and equals, character
   * for character, one of the pieces stripped.
   */
  lemma {:induction false} StrippedEntriesMembership(pieces: seq<string>, d: string)
    ensures d in StrippedEntries(pieces) <==> d != "" && exists i :: 0 <= i < |pieces| && Strip(pieces[i]) == d
  {
    if pieces != [] {
      StrippedEntriesMembership(pieces[1..], d);
      if exists i :: 0 <= i < |pieces[1..]| && Strip(pieces[1..][i]) == d {
        var i :| 0 <= i < |pieces[1..]| && Strip(pieces[1..][i]) == d;
        assert Strip(pieces[i + 1]) == d;
      }
      if exists i :: 1 <= i < |pieces| && Strip(pieces[i]) == d {
        var i :| 1 <= i < |pieces| && Strip(pieces[i]) == d;
        assert Strip(pieces[1..][i - 1]) == d;
      }
    }
  }

  /** The parsed blocked_domains setting: its comma-separated entries, stripped, blanks dropped. */
  function Blocklist(raw: string): seq<string>
  {
    StrippedEntries(Split(raw, ','))
  }

  /** An entry written with any whitespace around it, between commas, blocks exactly that domain. */
  lemma {:induction false} ListedDomainBlocked(entries: seq<string>, i: nat, pre: string, domain: string, post: string)
    requires forall j :: 0 <= j < |entries| ==> ',' !in entries[j]
    requires i < |entries| && entries[i] == pre + domain + post
    requires AllSpace(pre) && AllSpace(post) && Trimmed(domain) && domain != ""
    ensures domain in Blocklist(Join(entries, ","))
  {
    var raw := Join(entries, ",");
    SplitJoin(entries, ',');
    StripPadded(pre, domain, post);
    StrippedEntriesMembership(entries, domain);
    assert Blocklist(raw) == StrippedEntries(entries);
  }

  /** With no app_config rows the worker retries twice and blocks nothing. */
  lemma DefaultSettings()
    ensures ParseInt(ConfigValue(map[], MaxRetriesKey)) == Some(2)
    ensures ParseInt(ConfigValue(map[], TimeoutKey)) == Some(90)
    ensures Blocklist(ConfigValue(map[], BlockedDomainsKey)) == []
  {
    DefaultMaxRetries();
    DefaultTimeout();
    DefaultBlocklist();
  }

  lemma DefaultMaxRetries()
    ensures ParseInt(ConfigValue(map[], MaxRetriesKey)) == Some(2)
  {
    ParseIntRoundTrip(2);
    assert NatToString(2) == "2";
  }

  lemma DefaultTimeout()
    ensures ParseInt(ConfigValue(map[], TimeoutKey)) == Some(90)
  {
    ParseIntRoundTrip(90);
    assert NatToString(90) == "90";
  }

  lemma DefaultBlocklist()
    ensures Blocklist(ConfigValue(map[], BlockedDomainsKey)) == []
  {
    assert Split("", ',') == [""];
    assert Strip("") == "";
  }
}
