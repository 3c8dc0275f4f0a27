/**
  Text operations the hub relies on: joining strings with a terminator after
  each one (the way both `toString` and the sensor-line builder append a
  separator after every item), and Java's `String.split` on a one-character
  separator with the default limit of zero.
 */
module Text {

  /** Each part followed by one `sep`: "a" + sep + "b" + sep + ... */
  function JoinTerminated(parts: seq<string>, sep: char): (r: string)
    ensures |r| >= |parts|
    ensures |parts| == 0 ==> r == ""
    ensures |parts| > 0 ==> r[|r| - 1] == sep
    ensures |parts| > 0 ==> |parts[0]| < |r| && r[..|parts[0]|] == parts[0]
  {
    if |parts| == 0 then "" else parts[0] + [sep] + JoinTerminated(parts[1..], sep)
  }

  /** Every field between separators, keeping empty ones: n separators give
      n + 1 fields. */
  function RawSplit(s: string, sep: char): (r: seq<string>)
    ensures |r| >= 1
    ensures forall i :: 0 <= i < |r| ==> sep !in r[i]
  {
    if |s| == 0 then [""]
    else
      var rest := RawSplit(s[1..], sep);
      if s[0] == sep then [""] + rest
      else [[s[0]] + rest[0]] + rest[1..]
  }

  /** Drops empty strings from the end, as `split` with limit zero does. */
  function StripTrailingEmpty(fields: seq<string>): (r: seq<string>)
    ensures |r| <= |fields| && r == fields[..|r|]
    ensures |r| > 0 ==> r[|r| - 1] != ""
    ensures forall i :: |r| <= i < |fields| ==> fields[i] == ""
  {
    if |fields| > 0 && fields[|fields| - 1] == "" then StripTrailingEmpty(fields[..|fields| - 1])
    else fields
  }

  /** Java's `s.split(regex)` for a regex matching exactly the character `sep`:
      without a match the result is the whole string (so "" splits into one
      empty field); otherwise trailing empty fields are removed. */
  function JavaSplit(s: string, sep: char): (r: seq<string>)
    ensures forall i :: 0 <= i < |r| ==> sep !in r[i]
    ensures sep !in s ==> r == [s]
    ensures sep in s && |r| > 0 ==> r[|r| - 1] != ""
  {
    if sep !in s then [s] else StripTrailingEmpty(RawSplit(s, sep))
  }

  /** Joining `split`'s fields with the separator, after putting back the
      empty fields it dropped from the end, gives the string back. */
  lemma JavaSplitRejoin(s: string, sep: char)
    requires sep in s
    ensures var raw := RawSplit(s, sep);
      var r := JavaSplit(s, sep);
      && |r| <= |raw|
      && JoinSeparated(r + seq(|raw| - |r|, _ => ""), sep) == s
  {
    var raw := RawSplit(s, sep);
    var r := JavaSplit(s, sep);
    assert r + seq(|raw| - |r|, _ => "") == raw;
    RawSplitRoundTrip(s, sep);
  }

  /** Joining the raw fields back with the separator gives the string back. */
  function JoinSeparated(fields: seq<string>, sep: char): string
    requires |fields| >= 1
  {
    if |fields| == 1 then fields[0] else fields[0] + [sep] + JoinSeparated(fields[1..], sep)
  }

  lemma {:induction false} RawSplitRoundTrip(s: string, sep: char)
    ensures JoinSeparated(RawSplit(s, sep), sep) == s
  {
    if |s| == 0 {
    } else {
      var rest := RawSplit(s[1..], sep);
      RawSplitRoundTrip(s[1..], sep);
      if s[0] == sep {
        assert RawSplit(s, sep) == [""] + rest;
        assert ([""] + rest)[1..] == rest;
        assert s == [sep] + s[1..];
      } else {
        var r := RawSplit(s, sep);
        assert r == [[s[0]] + rest[0]] + rest[1..];
        if |rest| == 1 {
          assert s == [s[0]] + s[1..];
        } else {
          assert r[1..] == rest[1..];
          assert JoinSeparated(rest, sep) == rest[0] + [sep] + JoinSeparated(rest[1..], sep);
          assert s == [s[0]] + s[1..];
        }
      }
    }
  }

  /** A separator-free field followed by the separator splits off as one field. */
  lemma {:induction false} RawSplitField(a: string, sep: char, rest: string)
    requires sep !in a
    ensures RawSplit(a + [sep] + rest, sep) == [a] + RawSplit(rest, sep)
  {
    var s := a + [sep] + rest;
    if |a| == 0 {
      assert s == [sep] + rest;
      assert s[1..] == rest;
    } else {
      assert s[0] == a[0];
      assert s[1..] == a[1..] + [sep] + rest;
      RawSplitField(a[1..], sep, rest);
      assert [a[0]] + a[1..] == a;
    }
  }

  lemma {:induction false} RawSplitTerminated(parts: seq<string>, sep: char)
    requires forall i :: 0 <= i < |parts| ==> sep !in parts[i]
    ensures RawSplit(JoinTerminated(parts, sep), sep) == parts + [""]
  {
    if |parts| > 0 {
      RawSplitField(parts[0], sep, JoinTerminated(parts[1..], sep));
      RawSplitTerminated(parts[1..], sep);
      assert [parts[0]] + (parts[1..] + [""]) == parts + [""];
    }
  }

  /** Splitting text built with `JoinTerminated` gives its parts back, provided
      no part contains the separator and none is empty (an empty part at the
      end would be dropped). With no parts the text is "" and splits into one
      empty field. */
  lemma SplitJoinTerminated(parts: seq<string>, sep: char)
    requires forall i :: 0 <= i < |parts| ==> sep !in parts[i] && parts[i] != ""
    ensures JavaSplit(JoinTerminated(parts, sep), sep) == (if |parts| == 0 then [""] else parts)
  {
    if |parts| > 0 {
      var s := JoinTerminated(parts, sep);
      assert s[|s| - 1] == sep;
      RawSplitTerminated(parts, sep);
      var raw := parts + [""];
      assert raw[..|raw| - 1] == parts;
      assert StripTrailingEmpty(raw) == StripTrailingEmpty(parts);
    }
  }
}
