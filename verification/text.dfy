/** Whitespace trimming and character search over strings, as used by the settings
    parser (CircuitPython `str.strip`, `"=" in line`, `str.split("=", 1)`) and the Telnet
    command reader (Arduino `String.trim`). */
module Text {
  import opened Common

  /** The whitespace that CircuitPython's argument-less `str.strip()` removes, and that C's
      `isspace` accepts in the "C" locale (used by Arduino `String.trim`): space, tab, newline,
      carriage return, vertical tab and form feed. */
  const Whitespace: set<char> := {' ', '\t', '\n', '\r', '\U{B}', '\U{C}'}

  /** Drops the leading characters that belong to `ws`. */
  function TrimStart(s: string, ws: set<char>): (r: string)
    ensures |r| <= |s|
    ensures r != [] ==> r[0] !in ws
    decreases |s|
  {
    if s != [] && s[0] in ws then TrimStart(s[1..], ws) else s
  }

  /** Drops the trailing characters that belong to `ws`. */
  function TrimEnd(s: string, ws: set<char>): (r: string)
    ensures |r| <= |s|
    ensures r != [] ==> r[|r| - 1] !in ws
    decreases |s|
  {
    if s != [] && s[|s| - 1] in ws then TrimEnd(s[..|s| - 1], ws) else s
  }

  /** CircuitPython `s.strip()` / Arduino `s.trim()`: `s` without its leading and trailing
      characters from `ws` (see TrimStart and TrimEnd for what is dropped). */
  function Strip(s: string, ws: set<char>): (r: string)
    ensures |r| <= |s|
    ensures r != [] ==> r[0] !in ws && r[|r| - 1] !in ws
  {
    var t := TrimStart(s, ws);
    TrimEndIsPrefix(t, ws);
    TrimEnd(t, ws)
  }

  /** Stripping keeps only characters of the original string. */
  lemma StripKeepsCharsOf(s: string, ws: set<char>, c: char)
    requires c in Strip(s, ws)
    ensures c in s
  {
    var t := TrimStart(s, ws);
    var r := TrimEnd(t, ws);
    TrimStartIsSuffix(s, ws);
    TrimEndIsPrefix(t, ws);
    var j :| 0 <= j < |r| && r[j] == c;
    assert t[j] == c;
    assert s[|s| - |t| + j] == c;
  }

  /** TrimStart keeps a suffix of its input. */
  lemma {:induction false} TrimStartIsSuffix(s: string, ws: set<char>)
    ensures TrimStart(s, ws) == s[|s| - |TrimStart(s, ws)|..]
    decreases |s|
  {
    if s != [] && s[0] in ws {
      TrimStartIsSuffix(s[1..], ws);
    }
  }

  /** TrimEnd keeps a prefix of its input. */
  lemma {:induction false} TrimEndIsPrefix(s: string, ws: set<char>)
    ensures TrimEnd(s, ws) == s[..|TrimEnd(s, ws)|]
    decreases |s|
  {
    if s != [] && s[|s| - 1] in ws {
      TrimEndIsPrefix(s[..|s| - 1], ws);
    }
  }

  /** TrimStart drops only characters of `ws`. */
  lemma {:induction false} TrimStartDropsOnlyWhitespace(s: string, ws: set<char>, k: nat)
    requires k < |s| - |TrimStart(s, ws)|
    ensures s[k] in ws
    decreases |s|
  {
    if k > 0 {
      TrimStartDropsOnlyWhitespace(s[1..], ws, k - 1);
    }
  }

  /** TrimEnd drops only characters of `ws`. */
  lemma {:induction false} TrimEndDropsOnlyWhitespace(s: string, ws: set<char>, k: nat)
    requires |TrimEnd(s, ws)| <= k < |s|
    ensures s[k] in ws
    decreases |s|
  {
    if k < |s| - 1 {
      TrimEndDropsOnlyWhitespace(s[..|s| - 1], ws, k);
    }
  }

  /** The first index of `c` in `s`, or None when `c` does not occur: `c in s` is `IndexOf(s, c)
      != None`, and `s.split(c, 1)` cuts at that index. */
  function IndexOf(s: string, c: char): (r: Option<nat>)
    ensures r.None? <==> c !in s
    ensures r.Some? ==> r.value < |s| && s[r.value] == c && c !in s[..r.value]
  {
    if s == [] then None
    else if s[0] == c then Some(0)
    else match IndexOf(s[1..], c)
      case None => None
      case Some(i) => assert s[1..][..i] == s[1..i + 1]; Some(i + 1)
  }

  /** Stripping a string that already neither starts nor ends with whitespace changes nothing. */
  lemma StripUnpadded(s: string, ws: set<char>)
    requires s == [] || (s[0] !in ws && s[|s| - 1] !in ws)
    ensures Strip(s, ws) == s
  {
  }

  /** Stripping is idempotent. */
  lemma StripIdempotent(s: string, ws: set<char>)
    ensures Strip(Strip(s, ws), ws) == Strip(s, ws)
  {
    StripUnpadded(Strip(s, ws), ws);
  }
}
