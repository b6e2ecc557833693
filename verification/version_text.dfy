/**
 Reading and writing the text of a release version, the part of
 `packaging.version.parse` this model keeps: an optional `v` (or `V`) prefix
 followed by one or more dot-separated runs of decimal digits (`0.4.18`,
 `v0.5.0`). Any other text is an invalid version.
 */
module VersionText {
  import opened Wrappers
  import opened Digits
  import opened Versions

  /** Index of the first `.` in `s`, or `|s|` when there is none. */
  function FirstDot(s: string): (i: nat)
    ensures i <= |s|
    ensures i < |s| ==> s[i] == '.'
    ensures forall j :: 0 <= j < i ==> s[j] != '.'
  {
    if |s| == 0 || s[0] == '.' then 0 else 1 + FirstDot(s[1..])
  }

  /** The release segment `N(.N)*`, each component read as a decimal number. */
  function ParseRelease(s: string): (r: Option<Release>)
    ensures r.Some? ==> |r.value| > 0
    decreases |s|
  {
    var i := FirstDot(s);
    if i == 0 || !AllDigits(s[..i]) then None
    else if i == |s| then Some([Value(s[..i])])
    else
      match ParseRelease(s[i + 1..])
      case None => None
      case Some(rest) => Some([Value(s[..i])] + rest)
  }

  predicate IsPrefixV(c: char) {
    c == 'v' || c == 'V'
  }

  /** `packaging.version.parse` restricted to release versions; `None` is `InvalidVersion`. */
  function Parse(s: string): Option<Release> {
    if |s| > 0 && IsPrefixV(s[0]) then ParseRelease(s[1..]) else ParseRelease(s)
  }

  /** `str(Version)` of a release: the components in shortest decimal, joined by dots. */
  function Render(v: Release): (s: string)
    requires |v| > 0
    ensures |s| > 0 && IsDigit(s[0])
    decreases |v|
  {
    if |v| == 1 then Decimal(v[0]) else Decimal(v[0]) + "." + Render(v[1..])
  }

  // ---------------------------------------------------------------------------
  // Reference definition of the accepted text.
  // ---------------------------------------------------------------------------

  /** Digits and dots only, starting and ending with a digit, never two dots in a row. */
  ghost predicate WellFormedRelease(s: string) {
    && |s| > 0
    && IsDigit(s[0])
    && IsDigit(s[|s| - 1])
    && (forall j :: 0 <= j < |s| ==> s[j] == '.' || IsDigit(s[j]))
    && (forall j :: 0 <= j < |s| - 1 && s[j] == '.' ==> s[j + 1] != '.')
  }

  ghost predicate WellFormed(s: string) {
    WellFormedRelease(s) || (|s| > 0 && IsPrefixV(s[0]) && WellFormedRelease(s[1..]))
  }

  /** The parser accepts exactly the well-formed release texts. */
  lemma {:induction false} ParseReleaseDefined(s: string)
    ensures ParseRelease(s).Some? <==> WellFormedRelease(s)
    decreases |s|
  {
    var i := FirstDot(s);
    if i == 0 {
    } else if !AllDigits(s[..i]) {
      var j :| 0 <= j < i && !IsDigit(s[..i][j]);
      assert s[j] != '.' && !IsDigit(s[j]);
    } else if i == |s| {
      assert s[..i] == s;
    } else {
      var head := s[..i];
      var tail := s[i + 1..];
      ParseReleaseDefined(tail);
      assert forall j :: 0 <= j < i ==> IsDigit(s[j]) by {
        forall j | 0 <= j < i ensures IsDigit(s[j]) {
          assert head[j] == s[j];
        }
      }
      if WellFormedRelease(s) {
        assert s[i + 1] != '.';
        assert |tail| > 0 && tail[0] == s[i + 1];
        assert tail[|tail| - 1] == s[|s| - 1];
        forall j | 0 <= j < |tail| ensures tail[j] == '.' || IsDigit(tail[j]) {
          assert tail[j] == s[i + 1 + j];
        }
        forall j | 0 <= j < |tail| - 1 && tail[j] == '.' ensures tail[j + 1] != '.' {
          assert tail[j] == s[i + 1 + j] && tail[j + 1] == s[i + 1 + j + 1];
        }
      }
      if WellFormedRelease(tail) {
        assert s[|s| - 1] == tail[|tail| - 1];
        forall j | 0 <= j < |s| ensures s[j] == '.' || IsDigit(s[j]) {
          if j > i {
            assert s[j] == tail[j - i - 1];
          }
        }
        forall j | 0 <= j < |s| - 1 && s[j] == '.' ensures s[j + 1] != '.' {
          if j > i {
            assert s[j] == tail[j - i - 1] && s[j + 1] == tail[j - i];
          } else {
            assert j == i;
            assert s[j + 1] == tail[0];
          }
        }
      }
    }
  }

  /** `Parse` accepts exactly the well-formed texts, with or without a `v` prefix. */
  lemma ParseDefined(s: string)
    ensures Parse(s).Some? <==> WellFormed(s)
  {
    ParseReleaseDefined(s);
    if |s| > 0 {
      ParseReleaseDefined(s[1..]);
    }
  }

  /** Rendering and reading back a release gives it back. */
  lemma {:induction false} ReleaseRoundTrip(v: Release)
    requires |v| > 0
    ensures ParseRelease(Render(v)) == Some(v)
    decreases |v|
  {
    var d := Decimal(v[0]);
    DecimalValue(v[0]);
    var s := Render(v);
    var i := FirstDot(s);
    if |v| == 1 {
      assert s == d;
      assert forall j :: 0 <= j < |s| ==> s[j] != '.';
      assert i == |s| && s[..i] == d;
      assert [v[0]] == v;
    } else {
      var rest := Render(v[1..]);
      assert s == d + "." + rest;
      assert forall j :: 0 <= j < |d| ==> s[j] == d[j] && s[j] != '.';
      assert s[|d|] == '.';
      assert i == |d|;
      assert s[..i] == d;
      assert s[i + 1..] == rest;
      ReleaseRoundTrip(v[1..]);
      assert [v[0]] + v[1..] == v;
    }
  }

  /**
   A rendered release reads back with or without a `v` prefix:
   `Version("v0.5.0") == Version("0.5.0")`.
   */
  lemma PrefixedRoundTrip(v: Release)
    requires |v| > 0
    ensures Parse(Render(v)) == Some(v)
    ensures Parse("v" + Render(v)) == Some(v)
  {
    ReleaseRoundTrip(v);
    assert ("v" + Render(v))[1..] == Render(v);
  }
}
