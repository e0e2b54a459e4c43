/** The text of an onion address and its port, and reading it back. A character stands for
    one byte of text. */
module OnionText {
  import opened Digits
  import opened Base32
  import opened Options

  // ------------------------------------------------------------------
  // Host and port.

  datatype SplitResult = Split(host: string, port: string)
                       | MissingPort | TooManyColons | MissingBracket | UnexpectedOpen | UnexpectedClose

  /** The first position of a character, -1 for none. */
  function Find(s: string, c: char): (i: int)
    ensures -1 <= i < |s|
    ensures i >= 0 ==> s[i] == c && c !in s[..i]
    ensures i < 0 ==> c !in s
  {
    if s == "" then -1
    else if s[0] == c then 0
    else
      var i := Find(s[1..], c);
      assert s == [s[0]] + s[1..];
      if i < 0 then -1 else assert s[..i + 1] == [s[0]] + s[1..][..i]; i + 1
  }

  /** The last position of a character, -1 for none. */
  function RFind(s: string, c: char): (i: int)
    ensures -1 <= i < |s|
    ensures i >= 0 ==> s[i] == c && c !in s[i + 1..]
    ensures i < 0 ==> c !in s
  {
    if s == "" then -1
    else if s[|s| - 1] == c then |s| - 1
    else
      var i := RFind(s[..|s| - 1], c);
      assert s == s[..|s| - 1] + [s[|s| - 1]];
      if i < 0 then -1 else assert s[i + 1..] == s[..|s| - 1][i + 1..] + [s[|s| - 1]]; i
  }

  function SplitHostPort(s: string): SplitResult
  {
    var i := RFind(s, ':');
    if i < 0 then MissingPort
    else if s[0] == '[' then
      var end := Find(s, ']');
      if end < 0 then MissingBracket
      else if end + 1 == |s| then MissingPort
      else if end + 1 == i then SplitAt(s, s[1..end], 1, end + 1, i)
      else if s[end + 1] == ':' then TooManyColons
      else MissingPort
    else if ':' in s[..i] then TooManyColons
    else SplitAt(s, s[..i], 0, 0, i)
  }

  function SplitAt(s: string, host: string, j: nat, k: nat, i: nat): SplitResult
    requires j <= |s| && k <= |s| && i < |s|
  {
    if '[' in s[j..] then UnexpectedOpen
    else if ']' in s[k..] then UnexpectedClose
    else Split(host, s[i + 1..])
  }

  predicate Plain(s: string)
  {
    ':' !in s && '[' !in s && ']' !in s
  }

  /** The two forms of host and port. */
  predicate Joined(s: string, host: string, port: string)
  {
    || (s == host + ":" + port && Plain(host) && Plain(port))
    || (s == "[" + host + "]:" + port && '[' !in host && ']' !in host && Plain(port))
  }

  /** Splitting succeeds exactly on the two forms, with exactly their parts. */
  lemma SplitExact(s: string, host: string, port: string)
    ensures SplitHostPort(s) == Split(host, port) <==> Joined(s, host, port)
  {
    if SplitHostPort(s) == Split(host, port) {
      SplitIsJoined(s);
    }
    if s == host + ":" + port && Plain(host) && Plain(port) {
      SplitPlain(host, port);
    }
    if s == "[" + host + "]:" + port && '[' !in host && ']' !in host && Plain(port) {
      SplitBracketed(host, port);
    }
  }

  lemma SplitIsJoined(s: string)
    requires SplitHostPort(s).Split?
    ensures Joined(s, SplitHostPort(s).host, SplitHostPort(s).port)
  {
    var i := RFind(s, ':');
    if s[0] == '[' {
      BracketedParts(s, Find(s, ']'));
    } else {
      PlainParts(s, i);
    }
  }

  lemma PlainParts(s: string, i: nat)
    requires i < |s| && s[i] == ':' && ':' !in s[..i] && ':' !in s[i + 1..] && '[' !in s && ']' !in s
    ensures s == s[..i] + ":" + s[i + 1..] && Plain(s[..i]) && Plain(s[i + 1..])
  {
    Within(s, s[..i], '[', 0);
    Within(s, s[..i], ']', 0);
    Within(s, s[i + 1..], '[', i + 1);
    Within(s, s[i + 1..], ']', i + 1);
  }

  lemma BracketedParts(s: string, end: nat)
    requires 0 < end && end + 1 < |s| && s[0] == '[' && s[end] == ']' && s[end + 1] == ':' && ']' !in s[..end]
    requires ':' !in s[end + 2..] && '[' !in s[1..] && ']' !in s[end + 1..]
    ensures var host, port := s[1..end], s[end + 2..];
            s == "[" + host + "]:" + port && '[' !in host && ']' !in host && Plain(port)
  {
    var host, port := s[1..end], s[end + 2..];
    Within(s[1..], host, '[', 0);
    Within(s[..end], host, ']', 1);
    Within(s[1..], port, '[', end + 1);
    Within(s[end + 1..], port, ']', 1);
  }

  lemma Within(s: string, part: string, c: char, at: nat)
    requires c !in s && at + |part| <= |s| && part == s[at..at + |part|]
    ensures c !in part
  {}

  lemma SplitPlain(host: string, port: string)
    requires Plain(host) && Plain(port)
    ensures SplitHostPort(host + ":" + port) == Split(host, port)
  {
    var s := host + ":" + port;
    LastColon(s, host, port);
    assert s[..|host|] == host && s[|host| + 1..] == port && s[0..] == s;
    assert s[0] == if host == "" then ':' else host[0];
    assert '[' !in s && ']' !in s;
  }

  lemma LastColon(s: string, before: string, port: string)
    requires s == before + ":" + port && ':' !in port
    ensures RFind(s, ':') == |before|
  {
    var i := RFind(s, ':');
    assert s[|before|] == ':';
    assert forall j :: |before| < j < |s| ==> s[j] == port[j - |before| - 1];
    assert forall j :: i < j < |s| ==> s[i + 1..][j - i - 1] == s[j];
  }

  lemma FirstClose(s: string, host: string, rest: string)
    requires s == "[" + host + "]" + rest && ']' !in host
    ensures Find(s, ']') == |host| + 1
  {
    var i := Find(s, ']');
    assert s[|host| + 1] == ']';
    assert forall j :: 0 < j <= |host| ==> s[j] == host[j - 1];
    assert forall j :: 0 <= j < i ==> s[..i][j] == s[j];
  }

  lemma SplitBracketed(host: string, port: string)
    requires '[' !in host && ']' !in host && Plain(port)
    ensures SplitHostPort("[" + host + "]:" + port) == Split(host, port)
  {
    var s := "[" + host + "]:" + port;
    assert s == ("[" + host + "]") + ":" + port;
    assert s == "[" + host + "]" + (":" + port);
    LastColon(s, "[" + host + "]", port);
    FirstClose(s, host, ":" + port);
    assert s[1..|host| + 1] == host && s[|host| + 3..] == port;
    assert s[1..] == host + "]:" + port;
    assert '[' !in s[1..];
    assert s[|host| + 2..] == ":" + port;
    assert ']' !in s[|host| + 2..];
  }

  /** `net.JoinHostPort`. */
  function JoinHostPort(host: string, port: string): string
  {
    if ':' in host then "[" + host + "]:" + port else host + ":" + port
  }

  lemma JoinThenSplit(host: string, port: string)
    requires '[' !in host && ']' !in host && Plain(port)
    ensures SplitHostPort(JoinHostPort(host, port)) == Split(host, port)
  {
    SplitExact(JoinHostPort(host, port), host, port);
  }

  // ------------------------------------------------------------------
  // Ports.

  datatype PortResult = Port(number: nat) | BadSyntax | OutOfRange

  const MAX_PORT: nat := 65535

  predicate AllDigits(s: string)
  {
    forall i :: 0 <= i < |s| ==> '0' <= s[i] <= '9'
  }

  ghost function Decimal(s: string): nat
    requires AllDigits(s)
  {
    if s == "" then 0 else 10 * Decimal(s[..|s| - 1]) + (s[|s| - 1] as int - '0' as int)
  }

  /** Some first digits already make a number above every port. */
  ghost predicate Overflows(s: string)
  {
    exists j :: 0 <= j <= |s| && AllDigits(s[..j]) && Decimal(s[..j]) > MAX_PORT
  }

  /** Reads a port: the decimal value of a non-empty digit string up to 65535. A number too
      large is reported before any later character is looked at. */
  method ParsePort(s: string) returns (r: PortResult)
    ensures r.OutOfRange? <==> Overflows(s)
    ensures r.Port? <==> s != "" && AllDigits(s) && Decimal(s) <= MAX_PORT
    ensures r.Port? ==> r.number == Decimal(s)
  {
    if s == "" {
      return BadSyntax;
    }
    var n := 0;
    for i := 0 to |s|
      invariant AllDigits(s[..i]) && n == Decimal(s[..i]) <= MAX_PORT
      invariant forall j :: 0 <= j <= i ==> AllDigits(s[..j]) && Decimal(s[..j]) <= MAX_PORT
    {
      if !('0' <= s[i] <= '9') {
        assert forall j :: i < j <= |s| ==> !('0' <= s[..j][i] <= '9');
        return BadSyntax;
      }
      ghost var next := s[..i + 1];
      assert next[..i] == s[..i];
      n := 10 * n + (s[i] as int - '0' as int);
      if n > MAX_PORT {
        assert AllDigits(next) && Decimal(next) == n;
        PrefixOverflows(s, i + 1);
        return OutOfRange;
      }
    }
    assert s[..|s|] == s;
    r := Port(n);
  }

  lemma PrefixOverflows(s: string, j: nat)
    requires j <= |s| && AllDigits(s[..j]) && Decimal(s[..j]) > MAX_PORT
    ensures Overflows(s) && (AllDigits(s) ==> Decimal(s) > MAX_PORT)
  {
    if AllDigits(s) {
      DecimalGrows(s, j);
    }
  }

  lemma {:induction false} DecimalGrows(s: string, j: nat)
    requires j <= |s| && AllDigits(s)
    ensures Decimal(s[..j]) <= Decimal(s)
  {
    if j == |s| {
      assert s[..j] == s;
    } else {
      var t := s[..|s| - 1];
      assert t[..j] == s[..j];
      DecimalGrows(t, j);
    }
  }

  function DigitChar(d: nat): char
    requires d < 10
  {
    ('0' as int + d) as char
  }

  /** A port as printed. */
  function PortText(n: nat): (s: string)
    ensures s != "" && AllDigits(s) && Decimal(s) == n
  {
    if n < 10 then
      DecimalSnoc("", n);
      [DigitChar(n)]
    else
      DecimalSnoc(PortText(n / 10), n % 10);
      PortText(n / 10) + [DigitChar(n % 10)]
  }

  lemma DecimalSnoc(s: string, d: nat)
    requires AllDigits(s) && d < 10
    ensures AllDigits(s + [DigitChar(d)]) && Decimal(s + [DigitChar(d)]) == 10 * Decimal(s) + d
  {
    var t := s + [DigitChar(d)];
    assert t[..|t| - 1] == s;
  }

  lemma DigitsPlain(s: string)
    requires AllDigits(s)
    ensures Plain(s)
  {}

  // ------------------------------------------------------------------
  // Onion hosts.

  const TOR_V3_VERSION: nat := 3
  const SUFFIX: string := ".onion"

  /** The host text of an onion address: the base32 text of public key, checksum and version. */
  ghost predicate IsOnionHost(host: string, publicKey: Bytes, checksum: Bytes -> Bytes)
  {
    && |host| == 62 && host[56..] == SUFFIX
    && PrintsAs(publicKey + checksum(publicKey) + [TOR_V3_VERSION], host[..56])
  }

  /** The public key of an address field, cut or filled up to 32 bytes. */
  function PublicKey(ip: Bytes): (k: Bytes)
    ensures |k| == 32
    ensures |ip| == 32 ==> k == ip
  {
    if |ip| >= 32 then ip[..32] else ip + seq(32 - |ip|, i => 0)
  }

  method OnionHost(ip: Bytes, checksum: Bytes -> Bytes) returns (host: string)
    requires |checksum(PublicKey(ip))| == 2
    ensures IsOnionHost(host, PublicKey(ip), checksum)
  {
    hide PrintsAs;
    var key := PublicKey(ip);
    var bytes: Bytes := key + checksum(key) + [TOR_V3_VERSION];
    var text := Base32Lower(bytes);
    PrintedLength(bytes, text);
    host := text + SUFFIX;
    assert host[..56] == text && host[56..] == SUFFIX;
  }

  lemma PrintedLength(data: seq<nat>, text: string)
    requires PrintsAs(data, text) && |data| == 35
    ensures |text| == 56
  {
    var d :| PrintedDigits(data, text, d);
    WholeGroups(data, text, d);
  }

  datatype Host = Onion(publicKey: Bytes) | IPv4(octets: Bytes) | IPv6(octets: Bytes) | Unknown

  /** `is_tor_v3`: the public key of 35 bytes with the right checksum and version. */
  function TorV3Key(bytes: Bytes, checksum: Bytes -> Bytes): Option<Bytes>
  {
    if |bytes| != 35 || bytes[34] != TOR_V3_VERSION then None
    else if bytes[32..34] != checksum(bytes[..32]) then None
    else Some(bytes[..32])
  }

  /** `to4`: the four octets of an IPv4 address, plain or mapped into IPv6. */
  function To4(ip: Bytes): Option<Bytes>
  {
    if |ip| == 4 then Some(ip)
    else if |ip| == 16 && ip[..10] == seq(10, i => 0) && ip[10] == 0xff && ip[11] == 0xff then Some(ip[12..])
    else None
  }

  /** The host an IP parser's octets stand for. */
  function IpHost(octets: Option<Bytes>): Host
  {
    if octets.None? then Unknown
    else if To4(octets.value).Some? then IPv4(To4(octets.value).value)
    else IPv6(octets.value)
  }

  /** `encode_host`. As an onion address it accepts exactly the texts that are, up to the case
      of the base32 part, the printed text of a public key, and finds that key; any other text
      is what the IP parser makes of it. */
  method EncodeHost(host: string, checksum: Bytes -> Bytes, parseIp: string -> Option<Bytes>) returns (r: Host)
    ensures forall k: Bytes :: |k| == 32 && |checksum(k)| == 2 && IsOnionHost(host, k, checksum) ==> r == Onion(k)
    ensures r.Onion? ==> IsCasedOnionHost(host, r.publicKey, checksum)
    ensures !r.Onion? ==> r == IpHost(parseIp(host))
  {
    hide PrintsAs, SameNumber, InAlphabet, UpperText, ValuesOf;
    if |host| == 62 && host[56..] == SUFFIX {
      var upper := UpperText(host[..56]);
      var bytes := Base32StdDecode(upper);
      forall k: Bytes | |k| == 32 && |checksum(k)| == 2 && IsOnionHost(host, k, checksum)
        ensures bytes.Some? && TorV3Key(bytes.value, checksum) == Some(k)
      {
        OnionRead(host, k, checksum, if bytes.Some? then bytes.value else []);
      }
      if bytes.Some? {
        var key := TorV3Key(bytes.value, checksum);
        if key.Some? {
          OnionFound(host, bytes.value, checksum);
          return Onion(key.value);
        }
      }
    }
    r := IpHost(parseIp(host));
  }

  /** The host text of a public key that prints, up to the case of its first 56
      characters. */
  ghost predicate IsCasedOnionHost(host: string, publicKey: Bytes, checksum: Bytes -> Bytes)
  {
    && |publicKey| == 32 && |checksum(publicKey)| == 2
    && |host| == 62 && host[56..] == SUFFIX
    && forall printed :: IsOnionHost(printed, publicKey, checksum) ==> UpperText(printed[..56]) == UpperText(host[..56])
  }

  lemma OnionRead(host: string, k: Bytes, checksum: Bytes -> Bytes, bytes: Bytes)
    requires |k| == 32 && |checksum(k)| == 2 && IsOnionHost(host, k, checksum)
    requires InAlphabet(UpperText(host[..56])) ==> SameNumber(bytes, ValuesOf(UpperText(host[..56])))
    ensures InAlphabet(UpperText(host[..56])) && TorV3Key(bytes, checksum) == Some(k)
  {
    hide PrintsAs, SameNumber, InAlphabet, UpperText, ValuesOf;
    var data := k + checksum(k) + [TOR_V3_VERSION];
    PrintThenRead(data, host[..56], bytes);
    assert data[..32] == k && data[32..34] == checksum(k) && data[34] == TOR_V3_VERSION;
  }

  lemma OnionFound(host: string, bytes: Bytes, checksum: Bytes -> Bytes)
    requires |host| == 62 && host[56..] == SUFFIX && TorV3Key(bytes, checksum).Some?
    requires InAlphabet(UpperText(host[..56])) && SameNumber(bytes, ValuesOf(UpperText(host[..56])))
    ensures IsCasedOnionHost(host, TorV3Key(bytes, checksum).value, checksum)
  {
    hide PrintsAs, SameNumber, InAlphabet, UpperText, ValuesOf;
    var k := bytes[..32];
    assert bytes == k + checksum(k) + [TOR_V3_VERSION];
    forall printed | IsOnionHost(printed, k, checksum)
      ensures UpperText(printed[..56]) == UpperText(host[..56])
    {
      ReadThenPrint(host[..56], bytes, printed[..56]);
    }
  }

  // ------------------------------------------------------------------
  // The whole text.

  ghost predicate IsOnionKey(text: string, publicKey: Bytes, port: nat, checksum: Bytes -> Bytes)
  {
    |text| >= 62 && IsOnionHost(text[..62], publicKey, checksum) && text == JoinHostPort(text[..62], PortText(port))
  }

  /** `NetAddress::key` of an onion address. */
  method Key(ip: Bytes, port: nat, checksum: Bytes -> Bytes) returns (text: string)
    requires |checksum(PublicKey(ip))| == 2
    ensures IsOnionKey(text, PublicKey(ip), port, checksum)
  {
    hide IsOnionHost;
    var host := OnionHost(ip, checksum);
    text := JoinHostPort(host, PortText(port));
    OnionPlain(host, PublicKey(ip), checksum);
    assert text[..62] == host;
  }

  lemma OnionPlain(host: string, k: Bytes, checksum: Bytes -> Bytes)
    requires IsOnionHost(host, k, checksum) && |k| == 32 && |checksum(k)| == 2
    ensures Plain(host) && |host| == 62
  {
    hide SameNumber;
    var data := k + checksum(k) + [TOR_V3_VERSION];
    var text := host[..56];
    var d :| PrintedDigits(data, text, d);
    WholeGroups(data, text, d);
    assert forall i :: 0 <= i < 56 ==> host[i] == LowerChar(d[i]);
    assert host == text + SUFFIX;
  }

  datatype Parsed = Parsed(host: Host, port: nat) | Unreadable

  /** The text is a host and a port in range, in one of the two forms. */
  ghost predicate HostAndPort(text: string, host: string, digits: string, port: nat)
  {
    Joined(text, host, digits) && digits != "" && AllDigits(digits) && Decimal(digits) == port <= MAX_PORT
  }

  /** Reading an address text: split, port, host. The text of every onion key and port reads
      back as that key and port, whatever the checksum; every other text is read exactly when
      it is a host the IP parser knows and a port, and as these. */
  method FromText(text: string, checksum: Bytes -> Bytes, parseIp: string -> Option<Bytes>) returns (r: Parsed)
    ensures forall k: Bytes, port: nat ::
              |k| == 32 && |checksum(k)| == 2 && port <= MAX_PORT && IsOnionKey(text, k, port, checksum) ==>
              r == Parsed(Onion(k), port)
    ensures r.Parsed? ==> exists host, digits ::
              && HostAndPort(text, host, digits, r.port)
              && (if r.host.Onion? then IsCasedOnionHost(host, r.host.publicKey, checksum)
                  else r.host == IpHost(parseIp(host)) && !r.host.Unknown?)
    ensures forall host, digits, port :: HostAndPort(text, host, digits, port) && parseIp(host).Some? ==> r.Parsed?
  {
    hide IsOnionHost, IsCasedOnionHost, SplitHostPort, Overflows, Joined;
    var split := SplitHostPort(text);
    forall k: Bytes, port: nat | |k| == 32 && |checksum(k)| == 2 && IsOnionKey(text, k, port, checksum)
      ensures split == Split(text[..62], PortText(port))
    {
      OnionPlain(text[..62], k, checksum);
      DigitsPlain(PortText(port));
      JoinThenSplit(text[..62], PortText(port));
    }
    forall host, digits, port | HostAndPort(text, host, digits, port)
      ensures split == Split(host, digits)
    {
      SplitExact(text, host, digits);
    }
    if !split.Split? {
      return Unreadable;
    }
    SplitExact(text, split.host, split.port);
    var port := ParsePort(split.port);
    if !port.Port? {
      return Unreadable;
    }
    assert HostAndPort(text, split.host, split.port, port.number);
    var host := EncodeHost(split.host, checksum, parseIp);
    if host.Unknown? {
      return Unreadable;
    }
    r := Parsed(host, port.number);
  }
}
