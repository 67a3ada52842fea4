/**
 * The host-identity helpers of services/system_info.py. Every call into
 * the platform (`platform.system()`, `platform.node()`, `os.getlogin()`,
 * `socket.getfqdn()`, `uuid.getnode()`, the `USERDOMAIN` environment
 * variable, `time.timezone`) is a field of `Host` or a parameter.
 */
module SystemInfo {
  import opened Wrappers
  import opened Strings
  import Numerals

  /** What the platform reports at one instant. */
  datatype Host = Host(
    node: string,               // platform.node()
    login: string,              // os.getlogin()
    system: string,             // platform.system(), e.g. "Windows", "Linux"
    release: string,            // platform.release()
    userDomain: Option<string>, // os.environ.get("USERDOMAIN")
    fqdn: string,               // socket.getfqdn()
    node48: nat                 // uuid.getnode(), the MAC-derived hardware number
  )

  /** A value of the system-info dictionary: a string or Python's None. */
  datatype Value = Text(text: string) | Null

  /** Python's `s.split(sep)` for a one-character separator. */
  function Split(s: string, sep: char): (parts: seq<string>)
    ensures |parts| >= 1
    ensures |parts| > 1 <==> sep in s
    ensures forall k :: 0 <= k < |parts| ==> sep !in parts[k]
    decreases |s|
  {
    if sep in s then
      var i := IndexOf(s, sep);
      assert sep !in s[..i] by {
        forall k | 0 <= k < i ensures s[..i][k] != sep { }
      }
      [s[..i]] + Split(s[i + 1..], sep)
    else [s]
  }

  /** Python's `sep.join(parts)`. */
  function Join(parts: seq<string>, sep: char): string
  {
    if parts == [] then ""
    else if |parts| == 1 then parts[0]
    else parts[0] + [sep] + Join(parts[1..], sep)
  }

  /** Splitting and joining again on the same separator gives back the text. */
  lemma {:induction false} JoinSplit(s: string, sep: char)
    ensures Join(Split(s, sep), sep) == s
    decreases |s|
  {
    if sep in s {
      var i := IndexOf(s, sep);
      JoinSplit(s[i + 1..], sep);
      assert s == s[..i] + [sep] + s[i + 1..];
    }
  }

  /**
   * The non-Windows branch of `get_domain`: split the fully qualified
   * name on '.' and join every label after the first; None when there
   * is only one label.
   */
  function DomainFromFqdn(fqdn: string): (r: Option<string>)
    ensures r.None? <==> '.' !in fqdn
  {
    var parts := Split(fqdn, '.');
    if |parts| > 1 then Some(Join(parts[1..], '.')) else None
  }

  /** The first label is the text before the first separator; the other labels split the text after it. */
  lemma SplitAtFirst(s: string, sep: char)
    requires sep in s
    ensures Split(s, sep)[0] == s[..IndexOf(s, sep)]
    ensures Split(s, sep)[1..] == Split(s[IndexOf(s, sep) + 1..], sep)
  {
    var i := IndexOf(s, sep);
    var parts := Split(s, sep);
    assert parts == [s[..i]] + Split(s[i + 1..], sep);
  }

  /** The domain is exactly the text after the first dot, so the first label, a dot and the domain rebuild the name. */
  lemma DomainIsTextAfterFirstDot(fqdn: string)
    requires '.' in fqdn
    ensures DomainFromFqdn(fqdn) == Some(fqdn[IndexOf(fqdn, '.') + 1..])
    ensures fqdn == Split(fqdn, '.')[0] + "." + DomainFromFqdn(fqdn).value
  {
    var i := IndexOf(fqdn, '.');
    var rest := fqdn[i + 1..];
    SplitAtFirst(fqdn, '.');
    JoinSplit(rest, '.');
    assert fqdn == fqdn[..i] + "." + rest;
  }

  /** A trailing dot yields the empty domain, not None. */
  lemma TrailingDotGivesEmptyDomain()
    ensures DomainFromFqdn("host.") == Some("")
  {
    assert IndexOf("host.", '.') == 4;
    DomainIsTextAfterFirstDot("host.");
  }

  /** Only the first label is dropped: "a.b.c" has domain "b.c". */
  lemma DomainKeepsLaterLabels()
    ensures DomainFromFqdn("pc.corp.example") == Some("corp.example")
  {
    assert IndexOf("pc.corp.example", '.') == 2;
    DomainIsTextAfterFirstDot("pc.corp.example");
  }

  /** `get_domain`: the USERDOMAIN variable on Windows, the fqdn rule elsewhere. */
  function GetDomain(host: Host): (r: Option<string>)
    ensures host.system == "Windows" ==> r == host.userDomain
    ensures host.system != "Windows" ==> r == DomainFromFqdn(host.fqdn)
    ensures host.system != "Windows" ==> (r.None? <==> '.' !in host.fqdn)
    ensures host.system != "Windows" && '.' in host.fqdn ==>
      r == Some(host.fqdn[IndexOf(host.fqdn, '.') + 1..])
  {
    if host.system == "Windows" then host.userDomain
    else if '.' in host.fqdn then
      DomainIsTextAfterFirstDot(host.fqdn);
      DomainFromFqdn(host.fqdn)
    else DomainFromFqdn(host.fqdn)
  }

  const InfoKeys: set<string> := {"computer", "user", "domain", "os", "osVersion", "hwid"}

  /** `get_system_info`: the dictionary merged into every time window. */
  function GetSystemInfo(host: Host): (info: map<string, Value>)
    ensures info.Keys == InfoKeys
    ensures info["computer"] == Text(host.node) && info["user"] == Text(host.login)
    ensures info["domain"].Null? <==> GetDomain(host).None?
    ensures GetDomain(host).Some? ==> info["domain"] == Text(GetDomain(host).value)
    ensures info["os"] == Text(host.system) && info["osVersion"] == Text(host.release)
    ensures info["hwid"].Text? && |info["hwid"].text| >= 3 && info["hwid"].text[..2] == "0x"
    ensures Numerals.Canonical(info["hwid"].text[2..], 16)
    ensures Numerals.Value(info["hwid"].text[2..], 16) == host.node48
  {
    map[
      "computer" := Text(host.node),
      "user" := Text(host.login),
      "domain" := (match GetDomain(host) case Some(d) => Text(d) case None => Null),
      "os" := Text(host.system),
      "osVersion" := Text(host.release),
      "hwid" := Text(Numerals.Hex(host.node48))
    ]
  }

  /**
   * `get_timezone_offset`: `time.timezone` is seconds west of UTC; the
   * result is milliseconds with the sign flipped.
   */
  function TimezoneOffset(timezone: int): (ms: int)
    ensures ms % 1000 == 0 && ms / 1000 == -timezone
    ensures ms > 0 <==> timezone < 0
    ensures ms < 0 <==> timezone > 0
  {
    -timezone * 1000
  }
}
