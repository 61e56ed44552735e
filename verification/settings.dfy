/** The Pico W v2 configuration: `read_settings` folds the lines of `settings.ini` into a
    dictionary that starts from fixed defaults; TARGET_MAC is then hex-decoded, and the static
    address settings decide between static addressing and DHCP. */
module Settings {
  import opened Common
  import opened Text

  /** The recognised settings keys. */
  datatype Key =
    | TargetMacKey | WifiSsid | WifiPassword
    | StaticIp | StaticSubnetMask | StaticGateway | StaticDns
    | WifiFreqCheck | WifiFailedAttempts

  /** The dictionary always holds exactly the recognised keys; values are the raw strings. */
  type Dict = map<Key, string>

  /** The name a key has in `settings.ini`. */
  function KeyName(k: Key): string
  {
    match k
    case TargetMacKey => "TARGET_MAC"
    case WifiSsid => "WIFI_SSID"
    case WifiPassword => "WIFI_PASSWORD"
    case StaticIp => "STATIC_IP"
    case StaticSubnetMask => "STATIC_SUBNET_MASK"
    case StaticGateway => "STATIC_GATEWAY"
    case StaticDns => "STATIC_DNS"
    case WifiFreqCheck => "WIFI_FREQ_CHECK"
    case WifiFailedAttempts => "WIFI_FAILED_ATTEMPTS"
  }

  /** The keys in the order the defaults list them. */
  const KeyOrder: seq<Key> :=
    [TargetMacKey, WifiSsid, WifiPassword, StaticIp, StaticSubnetMask, StaticGateway, StaticDns,
     WifiFreqCheck, WifiFailedAttempts]

  /** The keys of the dictionary. */
  const AllKeys: set<Key> := set k | k in KeyOrder

  /** Distinct keys have distinct names. */
  lemma KeyNameInjective(a: Key, b: Key)
    requires KeyName(a) == KeyName(b)
    ensures a == b
  {
  }

  /** The first key of `keys` named `name`, if any. */
  function FindKey(name: string, keys: seq<Key>): (r: Option<Key>)
    ensures r.Some? ==> r.value in keys && KeyName(r.value) == name
    ensures r.None? ==> forall k :: k in keys ==> KeyName(k) != name
  {
    if keys == [] then None
    else if KeyName(keys[0]) == name then Some(keys[0])
    else FindKey(name, keys[1..])
  }

  /** `key in settings`: the recognised key with exactly this name, if any. */
  function LookupKey(name: string): (r: Option<Key>)
    ensures r.Some? ==> KeyName(r.value) == name
    ensures r.None? ==> forall k: Key :: KeyName(k) != name
  {
    EveryKeyListed();
    FindKey(name, KeyOrder)
  }

  /** `KeyOrder` lists every key. */
  lemma EveryKeyListed()
    ensures forall k: Key :: k in KeyOrder
  {
    forall k: Key
      ensures k in KeyOrder
    {
      match k
      case TargetMacKey => assert KeyOrder[0] == k;
      case WifiSsid => assert KeyOrder[1] == k;
      case WifiPassword => assert KeyOrder[2] == k;
      case StaticIp => assert KeyOrder[3] == k;
      case StaticSubnetMask => assert KeyOrder[4] == k;
      case StaticGateway => assert KeyOrder[5] == k;
      case StaticDns => assert KeyOrder[6] == k;
      case WifiFreqCheck => assert KeyOrder[7] == k;
      case WifiFailedAttempts => assert KeyOrder[8] == k;
    }
  }

  /** Every recognised key is found under its own name. */
  lemma LookupKeyName(k: Key)
    ensures LookupKey(KeyName(k)) == Some(k)
  {
    KeyNameInjective(LookupKey(KeyName(k)).value, k);
  }

  /** The value each key has before `settings.ini` is read. */
  function DefaultValue(key: Key): string
  {
    match key
    case TargetMacKey => "00:00:00:00:00:00"
    case WifiSsid => "your-fallback-wifi-ssid"
    case WifiPassword => "your-fallback-wifi-password"
    case StaticIp => ""
    case StaticSubnetMask => ""
    case StaticGateway => ""
    case StaticDns => ""
    case WifiFreqCheck => "10"
    case WifiFailedAttempts => "10"
  }

  const Defaults: Dict := map key | key in AllKeys :: DefaultValue(key)

  /** The key and value a line assigns: the stripped line, unless it is blank, starts with `#`
      or has no `=`, is split at its first `=` and both sides are stripped. */
  function ParseLine(raw: string): Option<(string, string)>
  {
    SplitLine(Strip(raw, Whitespace))
  }

  /** The split of a stripped line. */
  function SplitLine(line: string): Option<(string, string)>
  {
    if line == [] || line[0] == '#' then None
    else match IndexOf(line, '=')
      case None => None
      case Some(i) => Some((Strip(line[..i], Whitespace), Strip(line[i + 1..], Whitespace)))
  }

  /** Whether a parsed line names the recognised key `key`. */
  predicate Names(entry: Option<(string, string)>, key: Key)
  {
    entry.Some? && LookupKey(entry.value.0) == Some(key)
  }

  /** Whether `raw` assigns to the recognised key `key`. */
  predicate SetsKey(raw: string, key: Key)
  {
    Names(ParseLine(raw), key)
  }

  /** `if key in settings: settings[key] = value` for a parsed line: only keys already in the
      dictionary are updated, and only the one the line names. */
  function Assign(settings: Dict, entry: Option<(string, string)>): (r: Dict)
    ensures r.Keys == settings.Keys
    ensures forall key :: key in settings ==>
      r[key] == if Names(entry, key) then entry.value.1 else settings[key]
  {
    match entry
    case None => settings
    case Some((name, value)) =>
      match LookupKey(name)
      case Some(key) => if key in settings then settings[key := value] else settings
      case None => settings
  }

  /** One iteration of the loop. */
  function ApplyLine(settings: Dict, raw: string): (r: Dict)
  {
    Assign(settings, ParseLine(raw))
  }

  /** The effect of one line on one key: the line's value if it assigns that key, else unchanged. */
  lemma ApplyLineAt(settings: Dict, raw: string, key: Key)
    requires key in settings
    ensures ApplyLine(settings, raw).Keys == settings.Keys
    ensures ApplyLine(settings, raw)[key]
      == if SetsKey(raw, key) then ParseLine(raw).value.1 else settings[key]
  {
  }

  /** Every line parsed on its own. */
  function ParseAll(lines: seq<string>): (entries: seq<Option<(string, string)>>)
    ensures |entries| == |lines|
    ensures forall m :: 0 <= m < |lines| ==> entries[m] == ParseLine(lines[m])
  {
    seq(|lines|, m requires 0 <= m < |lines| => ParseLine(lines[m]))
  }

  /** The updates of parsed lines, first to last. */
  function AssignAll(settings: Dict, entries: seq<Option<(string, string)>>): (r: Dict)
    ensures r.Keys == settings.Keys
  {
    if entries == [] then settings
    else Assign(AssignAll(settings, entries[..|entries| - 1]), entries[|entries| - 1])
  }

  /** The loop over the lines, first to last. */
  function ApplyLines(settings: Dict, lines: seq<string>): (r: Dict)
    ensures r.Keys == settings.Keys
  {
    AssignAll(settings, ParseAll(lines))
  }

  /** Folding one more line is applying it to the fold of the lines before it. */
  lemma ApplyLinesSnoc(settings: Dict, lines: seq<string>, i: nat)
    requires i < |lines|
    ensures ApplyLines(settings, lines[..i + 1]) == ApplyLine(ApplyLines(settings, lines[..i]), lines[i])
  {
    var entries, before := ParseAll(lines[..i + 1]), ParseAll(lines[..i]);
    assert entries[..i] == before by {
      forall m | 0 <= m < i
        ensures entries[m] == before[m]
      {
        assert lines[..i + 1][m] == lines[..i][m];
      }
    }
    assert entries[i] == ParseLine(lines[i]);
  }

  /** `read_settings()`. `file` is None when `settings.ini` cannot be opened; otherwise it holds
      the lines read (a read error part-way keeps the updates of the lines before it). */
  method ReadSettings(file: Option<seq<string>>) returns (settings: Dict)
    ensures settings.Keys == AllKeys
    ensures file.None? ==> settings == Defaults
    ensures file.Some? ==> settings == ApplyLines(Defaults, file.value)
  {
    settings := Defaults;
    if file.Some? {
      var lines := file.value;
      var i := 0;
      assert lines[..0] == [];
      while i < |lines|
        invariant 0 <= i <= |lines|
        invariant settings == ApplyLines(Defaults, lines[..i])
      {
        ApplyLinesSnoc(Defaults, lines, i);
        ghost var before := settings;
        // strip, skip blank and comment lines, split at the first '=' and strip both sides
        var parsed := ParseLine(lines[i]);
        if parsed.Some? {
          var (name, value) := parsed.value;
          var key := LookupKey(name);
          if key.Some? && key.value in settings {
            settings := settings[key.value := value];
          }
        }
        assert settings == ApplyLine(before, lines[i]);
        i := i + 1;
      }
      assert lines[..i] == lines;
    }
  }

  /** Blank lines, comment lines and lines without `=` leave the settings unchanged. */
  lemma SkippedLinesChangeNothing(settings: Dict, raw: string)
    requires Strip(raw, Whitespace) == [] || Strip(raw, Whitespace)[0] == '#' || '=' !in raw
    ensures ApplyLine(settings, raw) == settings
  {
    if '=' in Strip(raw, Whitespace) {
      StripKeepsCharsOf(raw, Whitespace, '=');
    }
  }

  /** A line is split at its FIRST `=`: `key = a=b` assigns `a=b` to `key`. In general a line
      `k=v` with no `=` in `k` assigns the stripped `v` to the stripped `k`. */
  lemma SplitAtFirstEquals(k: string, v: string)
    requires '=' !in k
    requires k == [] || (k[0] !in Whitespace && k[0] != '#')
    requires v == [] || v[|v| - 1] !in Whitespace
    ensures ParseLine(k + "=" + v) == Some((Strip(k, Whitespace), Strip(v, Whitespace)))
  {
    var line := k + "=" + v;
    JoinedUnpadded(k, v);
    EqualsFoundAt(k, v);
    SplitLineAt(line, |k|, k, v);
  }

  /** Joining an unpadded key and value with `=` gives an unpadded, non-comment line. */
  lemma JoinedUnpadded(k: string, v: string)
    requires k == [] || (k[0] !in Whitespace && k[0] != '#')
    requires v == [] || v[|v| - 1] !in Whitespace
    ensures k + "=" + v != [] && (k + "=" + v)[0] != '#'
    ensures Strip(k + "=" + v, Whitespace) == k + "=" + v
  {
    var line := k + "=" + v;
    assert line[0] == if k == [] then '=' else k[0];
    assert line[|line| - 1] == if v == [] then '=' else v[|v| - 1];
    StripUnpadded(line, Whitespace);
  }

  /** A line that is not a comment splits at its first `=`. */
  lemma SplitLineAt(line: string, i: nat, k: string, v: string)
    requires line != [] && line[0] != '#'
    requires IndexOf(line, '=') == Some(i) && line[..i] == k && line[i + 1..] == v
    ensures SplitLine(line) == Some((Strip(k, Whitespace), Strip(v, Whitespace)))
  {
  }

  /** The first `=` of `k + "=" + v` is the one after `k` when `k` has none. */
  lemma EqualsFoundAt(k: string, v: string)
    requires '=' !in k
    ensures IndexOf(k + "=" + v, '=') == Some(|k|)
    ensures (k + "=" + v)[..|k|] == k && (k + "=" + v)[|k| + 1..] == v
  {
    var line := k + "=" + v;
    assert line[|k|] == '=';
    assert line[..|k|] == k;
    assert line[|k| + 1..] == v;
  }

  /** The last line that assigns a known key decides its value: later lines for other keys,
      and lines that set nothing, do not disturb it. */
  lemma LastAssignmentWins(settings: Dict, lines: seq<string>, j: nat, key: Key, value: string)
    requires key in settings && j < |lines|
    requires ParseLine(lines[j]) == Some((KeyName(key), value))
    requires forall m :: j < m < |lines| ==> !SetsKey(lines[m], key)
    ensures ApplyLines(settings, lines)[key] == value
  {
    LookupKeyName(key);
    LastNamedWins(settings, ParseAll(lines), j, key);
  }

  /** The fold keeps the value of the last entry that names `key`. */
  lemma {:induction false} LastNamedWins(settings: Dict, entries: seq<Option<(string, string)>>, j: nat, key: Key)
    requires key in settings && j < |entries| && Names(entries[j], key)
    requires forall m :: j < m < |entries| ==> !Names(entries[m], key)
    ensures AssignAll(settings, entries)[key] == entries[j].value.1
    decreases |entries|
  {
    var init := entries[..|entries| - 1];
    if j < |entries| - 1 {
      assert forall m :: j < m < |init| ==> init[m] == entries[m];
      LastNamedWins(settings, init, j, key);
    }
  }

  /** A key that no line assigns keeps its starting value. */
  lemma UnassignedKeyKept(settings: Dict, lines: seq<string>, key: Key)
    requires key in settings
    requires forall m :: 0 <= m < |lines| ==> !SetsKey(lines[m], key)
    ensures ApplyLines(settings, lines)[key] == settings[key]
  {
    NeverNamedKept(settings, ParseAll(lines), key);
  }

  /** The fold leaves a key that no entry names as it was. */
  lemma {:induction false} NeverNamedKept(settings: Dict, entries: seq<Option<(string, string)>>, key: Key)
    requires key in settings
    requires forall m :: 0 <= m < |entries| ==> !Names(entries[m], key)
    ensures AssignAll(settings, entries)[key] == settings[key]
    decreases |entries|
  {
    if entries != [] {
      var init := entries[..|entries| - 1];
      assert forall m :: 0 <= m < |init| ==> init[m] == entries[m];
      NeverNamedKept(settings, init, key);
    }
  }

  /** A line whose key names no recognised setting changes nothing: unknown keys never
      enter the dictionary. */
  lemma UnknownKeyIgnored(settings: Dict, raw: string)
    requires ParseLine(raw).Some? && LookupKey(ParseLine(raw).value.0).None?
    ensures ApplyLine(settings, raw) == settings
  {
  }

  // ---- TARGET_MAC: bytes.fromhex(setting.replace(":", "")) ----

  /** `s.replace(":", "")`. */
  function RemoveColons(s: string): (r: string)
    ensures ':' !in r && |r| <= |s|
    ensures ':' !in s ==> r == s
  {
    if s == [] then []
    else (if s[0] == ':' then [] else [s[0]]) + RemoveColons(s[1..])
  }

  predicate IsHexDigit(c: char)
  {
    '0' <= c <= '9' || 'a' <= c <= 'f' || 'A' <= c <= 'F'
  }

  function HexDigitValue(c: char): (v: nat)
    requires IsHexDigit(c)
    ensures v < 16
  {
    if '0' <= c <= '9' then c as nat - '0' as nat
    else if 'a' <= c <= 'f' then c as nat - 'a' as nat + 10
    else c as nat - 'A' as nat + 10
  }

  /** `bytes.fromhex(s)` on a plain run of hex digits of either case: None (the call raises)
      for an odd number of digits or any other character (FromHexByte gives each byte). */
  function FromHex(s: string): (r: Option<seq<byte>>)
    ensures r.Some? <==> |s| % 2 == 0 && forall k :: 0 <= k < |s| ==> IsHexDigit(s[k])
    ensures r.Some? ==> |r.value| == |s| / 2
  {
    if s == [] then Some([])
    else if |s| == 1 || !IsHexDigit(s[0]) || !IsHexDigit(s[1]) then None
    else match FromHex(s[2..])
      case None => None
      case Some(rest) => Some([(HexDigitValue(s[0]) * 16 + HexDigitValue(s[1])) as byte] + rest)
  }

  /** Byte `k` of a decoded string is the value of digits `2k` and `2k + 1`, high digit first,
      whatever the case of the digits. */
  lemma {:induction false} FromHexByte(s: string, k: nat)
    requires FromHex(s).Some? && k < |FromHex(s).value|
    ensures FromHex(s).value[k] as int == 16 * HexDigitValue(s[2 * k]) + HexDigitValue(s[2 * k + 1])
    decreases k
  {
    if k > 0 {
      FromHexByte(s[2..], k - 1);
      assert s[2..][2 * (k - 1)] == s[2 * k] && s[2..][2 * (k - 1) + 1] == s[2 * k + 1];
    }
  }

  /** `TARGET_MAC = bytes.fromhex(settings["TARGET_MAC"].replace(":", ""))`. */
  function TargetMac(setting: string): Option<seq<byte>>
  {
    FromHex(RemoveColons(setting))
  }

  /** The hex digit for `n`, upper- or lower-case. */
  function HexChar(n: nat, upper: bool): (c: char)
    requires n < 16
    ensures IsHexDigit(c) && HexDigitValue(c) == n
  {
    if n < 10 then ('0' as int + n) as char
    else ((if upper then 'A' else 'a') as int + n - 10) as char
  }

  /** Two hex digits per byte, high digit first: the reference encoding `FromHex` inverts. */
  function ToHex(bytes: seq<byte>, upper: bool): (s: string)
    ensures |s| == 2 * |bytes|
  {
    if bytes == [] then []
    else [HexChar(bytes[0] as int / 16, upper), HexChar(bytes[0] as int % 16, upper)] + ToHex(bytes[1..], upper)
  }

  /** The usual `aa:bb:cc:...` / `AA:BB:CC:...` rendering of a MAC address. */
  function ColonHex(bytes: seq<byte>, upper: bool): string
  {
    if |bytes| <= 1 then ToHex(bytes, upper)
    else ToHex([bytes[0]], upper) + [':'] + ColonHex(bytes[1..], upper)
  }

  /** Hex-decoding undoes hex-encoding, in either case. */
  lemma {:induction false} FromHexToHex(bytes: seq<byte>, upper: bool)
    ensures FromHex(ToHex(bytes, upper)) == Some(bytes)
  {
    if bytes != [] {
      var s := ToHex(bytes, upper);
      var b := bytes[0] as int;
      assert s[2..] == ToHex(bytes[1..], upper);
      FromHexToHex(bytes[1..], upper);
      assert bytes == [bytes[0]] + bytes[1..];
    }
  }

  /** Hex digits contain no colon. */
  lemma {:induction false} NoColonInHex(bytes: seq<byte>, upper: bool)
    ensures ':' !in ToHex(bytes, upper)
  {
    if bytes != [] {
      NoColonInHex(bytes[1..], upper);
      var b := bytes[0] as int;
      assert IsHexDigit(HexChar(b / 16, upper)) && IsHexDigit(HexChar(b % 16, upper));
    }
  }

  /** Removing the colons of the colon form leaves the plain hex form. */
  lemma {:induction false} RemoveColonsColonHex(bytes: seq<byte>, upper: bool)
    ensures RemoveColons(ColonHex(bytes, upper)) == ToHex(bytes, upper)
    decreases |bytes|
  {
    NoColonInHex(bytes, upper);
    if |bytes| > 1 {
      var head := ToHex([bytes[0]], upper);
      var tail := ColonHex(bytes[1..], upper);
      NoColonInHex([bytes[0]], upper);
      RemoveColonsAppend(head + [':'], tail);
      RemoveColonsAppend(head, [':']);
      RemoveColonsColonHex(bytes[1..], upper);
      ToHexAppend([bytes[0]], bytes[1..], upper);
      assert [bytes[0]] + bytes[1..] == bytes;
    }
  }

  lemma {:induction false} RemoveColonsAppend(a: string, b: string)
    ensures RemoveColons(a + b) == RemoveColons(a) + RemoveColons(b)
    decreases |a|
  {
    if a == [] {
      assert a + b == b;
    } else {
      var t := a[1..];
      var h := if a[0] == ':' then [] else [a[0]];
      assert a == [a[0]] + t;
      assert a + b == [a[0]] + (t + b);
      RemoveColonsCons(a[0], t + b);
      RemoveColonsCons(a[0], t);
      RemoveColonsAppend(t, b);
      var x, y := RemoveColons(t), RemoveColons(b);
      assert RemoveColons(a + b) == h + (x + y);
      assert RemoveColons(a) == h + x;
      AppendAssociative(h, x, y);
    }
  }

  lemma RemoveColonsCons(c: char, t: string)
    ensures RemoveColons([c] + t) == (if c == ':' then [] else [c]) + RemoveColons(t)
  {
    assert ([c] + t)[1..] == t;
  }

  lemma {:induction false} ToHexAppend(a: seq<byte>, b: seq<byte>, upper: bool)
    ensures ToHex(a + b, upper) == ToHex(a, upper) + ToHex(b, upper)
    decreases |a|
  {
    if a == [] {
      assert a + b == b;
    } else {
      assert (a + b)[1..] == a[1..] + b;
      ToHexAppend(a[1..], b, upper);
    }
  }

  /** TARGET_MAC accepts a MAC written with or without colons, in upper or lower case, and
      yields its bytes. */
  lemma TargetMacRoundTrip(bytes: seq<byte>, upper: bool)
    ensures TargetMac(ToHex(bytes, upper)) == Some(bytes)
    ensures TargetMac(ColonHex(bytes, upper)) == Some(bytes)
  {
    FromHexToHex(bytes, upper);
    RemoveColonsColonHex(bytes, upper);
    NoColonInHex(bytes, upper);
  }

  /** The default TARGET_MAC `00:00:00:00:00:00` decodes to six zero bytes. */
  lemma DefaultTargetMacIsZero()
    ensures TargetMac(Defaults[TargetMacKey]) == Some([0, 0, 0, 0, 0, 0])
  {
    var zeros: seq<byte> := [0, 0, 0, 0, 0, 0];
    assert ToHex([0], false) == "00";
    assert ColonHex(zeros[5..], false) == "00";
    assert ColonHex(zeros[4..], false) == "00:00";
    assert ColonHex(zeros[3..], false) == "00:00:00";
    assert ColonHex(zeros[2..], false) == "00:00:00:00";
    assert ColonHex(zeros[1..], false) == "00:00:00:00:00";
    assert ColonHex(zeros, false) == "00:00:00:00:00:00";
    TargetMacRoundTrip(zeros, false);
  }

  // ---- configure_wifi: static address or DHCP ----

  /** How the radio is addressed before connecting. */
  datatype Addressing =
    | Dhcp
    | Static(ip: string, mask: string, gateway: string, dns: Option<string>)

  const StaticKeys: set<Key> := {StaticIp, StaticSubnetMask, StaticGateway, StaticDns}

  /** `configure_wifi()`. `staticAccepted` stands for the outcome of parsing the addresses
      and applying them to the radio; when that raises, the radio stays on DHCP. */
  function ConfigureWifi(settings: Dict, staticAccepted: bool): (a: Addressing)
    requires StaticKeys <= settings.Keys
    ensures a.Static? <==>
      (settings[StaticIp] != "" && settings[StaticSubnetMask] != "" && settings[StaticGateway] != "" && staticAccepted)
    ensures a.Static? ==>
      a.ip == settings[StaticIp] && a.mask == settings[StaticSubnetMask] && a.gateway == settings[StaticGateway]
    ensures a.Static? ==> (a.dns.Some? <==> settings[StaticDns] != "")
    ensures a.Static? && a.dns.Some? ==> a.dns.value == settings[StaticDns]
  {
    if settings[StaticIp] != "" && settings[StaticSubnetMask] != "" && settings[StaticGateway] != ""
      && staticAccepted
    then Static(settings[StaticIp], settings[StaticSubnetMask], settings[StaticGateway],
                  if settings[StaticDns] != "" then Some(settings[StaticDns]) else None)
    else Dhcp
  }

  /** A settings file that never assigns one of STATIC_IP, STATIC_SUBNET_MASK or STATIC_GATEWAY
      leaves that key empty, and so the radio uses DHCP. */
  lemma DhcpUnlessStaticAddressGiven(lines: seq<string>, key: Key, staticAccepted: bool)
    requires key in {StaticIp, StaticSubnetMask, StaticGateway}
    requires forall m :: 0 <= m < |lines| ==> !SetsKey(lines[m], key)
    ensures ConfigureWifi(ApplyLines(Defaults, lines), staticAccepted) == Dhcp
  {
    UnassignedKeyKept(Defaults, lines, key);
  }
}
