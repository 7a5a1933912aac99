/** Loading the server's configuration: defaults, then validation of every upstream. */
module ServerConfig {

  datatype Config = Config(
    listen: seq<string>, path: string, upstream: seq<string>, cert: string, key: string,
    timeout: nat, tries: nat)

  /** What the file gave: nothing readable, or fields and keys that fit none of them. */
  datatype File = Unreadable | Decoded(conf: Config, unknown: seq<string>)

  datatype Loaded = Refused | Accepted(conf: Config)

  predicate TypeChar(c: char) {
    'a' <= c <= 'z' || c == '-'
  }

  /** The length of the longest run of type characters at the front. */
  function TypeRun(s: string): (k: nat)
    ensures k <= |s| && forall i :: 0 <= i < k ==> TypeChar(s[i])
    ensures k < |s| ==> !TypeChar(s[k])
  {
    if s == [] || !TypeChar(s[0]) then 0 else 1 + TypeRun(s[1..])
  }

  /** Address and type of "type:address"; both empty if there is no such prefix. */
  function AddressAndType(us: string): (string, string) {
    var k := TypeRun(us);
    if 0 < k < |us| && us[k] == ':' then (us[k + 1..], us[..k]) else ("", "")
  }

  lemma {:induction false} TypeRunIs(kind: string, rest: string)
    requires (forall i :: 0 <= i < |kind| ==> TypeChar(kind[i])) && rest != [] && !TypeChar(rest[0])
    ensures TypeRun(kind + rest) == |kind|
  {
    if kind == [] {
      assert kind + rest == rest;
    } else {
      assert (kind + rest)[1..] == kind[1..] + rest;
      TypeRunIs(kind[1..], rest);
    }
  }

  /** The split undoes the join, and finds a type only where one was joined on. */
  lemma SplitExactly(us: string, kind: string, address: string)
    requires kind != []
    ensures AddressAndType(us) == (address, kind)
            <==> us == kind + ":" + address && forall i :: 0 <= i < |kind| ==> TypeChar(kind[i])
  {
    var k := TypeRun(us);
    if 0 < k < |us| && us[k] == ':' {
      assert us == us[..k] + ":" + us[k + 1..];
    }
    if us == kind + ":" + address && forall i :: 0 <= i < |kind| ==> TypeChar(kind[i]) {
      assert us == kind + (":" + address);
      TypeRunIs(kind, ":" + address);
    }
  }

  predicate UsableUpstream(us: string) {
    var (address, kind) := AddressAndType(us);
    address != "" && kind in {"udp", "tcp", "tcp-tls"}
  }

  ghost predicate Usable(conf: Config) {
    && conf.listen != [] && conf.path != "" && conf.upstream != [] && conf.timeout > 0 && conf.tries > 0
    && ((conf.cert != "") <==> (conf.key != ""))
    && forall i :: 0 <= i < |conf.upstream| ==> UsableUpstream(conf.upstream[i])
  }

  const DEFAULT_LISTEN := ["127.0.0.1:8053", "[::1]:8053"]
  const DEFAULT_UPSTREAM := ["udp:8.8.8.8:53", "udp:8.8.4.4:53"]

  lemma JoinedUsable(kind: string, address: string)
    requires kind == "udp" || kind == "tcp" || kind == "tcp-tls"
    requires address != ""
    ensures UsableUpstream(kind + ":" + address)
  {
    SplitExactly(kind + ":" + address, kind, address);
  }

  /** Usable is exactly one of the three types, a colon, and an address. */
  lemma UsableExactly(us: string)
    ensures UsableUpstream(us) <==>
              exists kind, address :: (kind == "udp" || kind == "tcp" || kind == "tcp-tls") && address != ""
                                      && us == Upstream(kind, address)
  {
    if UsableUpstream(us) {
      var (address, kind) := AddressAndType(us);
      SplitExactly(us, kind, address);
      assert us == Upstream(kind, address);
    }
    forall kind, address | (kind == "udp" || kind == "tcp" || kind == "tcp-tls") && address != ""
                           && us == Upstream(kind, address)
      ensures UsableUpstream(us)
    {
      JoinedUsable(kind, address);
    }
  }

  function Upstream(kind: string, address: string): string {
    kind + ":" + address
  }

  lemma DefaultsUsable()
    ensures UsableUpstream(DEFAULT_UPSTREAM[0]) && UsableUpstream(DEFAULT_UPSTREAM[1])
  {
    hide UsableUpstream;
    JoinedUsable("udp", "8.8.8.8:53");
    JoinedUsable("udp", "8.8.4.4:53");
    assert DEFAULT_UPSTREAM[0] == "udp" + ":" + "8.8.8.8:53";
    assert DEFAULT_UPSTREAM[1] == "udp" + ":" + "8.8.4.4:53";
  }

  /** Missing fields get defaults; given ones are kept. */
  ghost predicate Completes(conf: Config, given: Config) {
    && conf.listen == (if given.listen == [] then DEFAULT_LISTEN else given.listen)
    && conf.path == (if given.path == "" then "/dns-query" else given.path)
    && conf.upstream == (if given.upstream == [] then DEFAULT_UPSTREAM else given.upstream)
    && conf.timeout == (if given.timeout == 0 then 10 else given.timeout)
    && conf.tries == (if given.tries == 0 then 1 else given.tries)
    && conf.cert == given.cert && conf.key == given.key
  }

  /** Accepted exactly when the file is clean and every given upstream is usable. */
  method LoadConfig(file: File) returns (r: Loaded)
    ensures r.Accepted? ==> file.Decoded? && Completes(r.conf, file.conf) && Usable(r.conf)
    ensures r.Accepted? <==>
              && file.Decoded? && file.unknown == []
              && ((file.conf.cert != "") <==> (file.conf.key != ""))
              && forall i :: 0 <= i < |file.conf.upstream| ==> UsableUpstream(file.conf.upstream[i])
  {
    hide UsableUpstream;
    if file.Unreadable? || file.unknown != [] {
      return Refused;
    }
    var conf := file.conf;
    if |conf.listen| == 0 {
      conf := conf.(listen := DEFAULT_LISTEN);
    }
    if conf.path == "" {
      conf := conf.(path := "/dns-query");
    }
    if |conf.upstream| == 0 {
      conf := conf.(upstream := DEFAULT_UPSTREAM);
    }
    if conf.timeout == 0 {
      conf := conf.(timeout := 10);
    }
    if conf.tries == 0 {
      conf := conf.(tries := 1);
    }
    if (conf.cert != "") != (conf.key != "") {
      return Refused;
    }
    DefaultsUsable();
    for i := 0 to |conf.upstream|
      invariant forall k :: 0 <= k < i ==> UsableUpstream(conf.upstream[k])
    {
      if !UsableUpstream(conf.upstream[i]) {
        return Refused;
      }
    }
    return Accepted(conf);
  }
}
