/** Python string primitives used by the generator: `str.strip()` with no
    argument, `str.split(sep)` with a one-character separator, and the join
    that undoes the split. */
module Text {

  /** The characters Python's `str.isspace()` accepts, which are exactly the
      ones `str.strip()` removes when called without an argument. */
  predicate IsSpace(c: char) {
    c == ' ' || ('\t' <= c <= '\r') || ('\U{1C}' <= c <= '\U{1F}')
    || c == '\U{85}' || c == '\U{A0}' || c == '\U{1680}'
    || ('\U{2000}' <= c <= '\U{200A}') || c == '\U{2028}' || c == '\U{2029}'
    || c == '\U{202F}' || c == '\U{205F}' || c == '\U{3000}'
  }

  predicate AllSpace(s: string) {
    forall k :: 0 <= k < |s| ==> IsSpace(s[k])
  }

  /** Neither the first nor the last character is whitespace. */
  predicate Stripped(s: string) {
    s == [] || (!IsSpace(s[0]) && !IsSpace(s[|s| - 1]))
  }

  /** `s.lstrip()`: drops the longest all-whitespace prefix. */
  function TrimLeft(s: string): (r: string)
    ensures |r| <= |s|
    ensures r == [] || !IsSpace(r[0])
  {
    if s != [] && IsSpace(s[0]) then TrimLeft(s[1..]) else s
  }

  /** `s.rstrip()`: drops the longest all-whitespace suffix. */
  function TrimRight(s: string): (r: string)
    ensures |r| <= |s|
    ensures r == [] || !IsSpace(r[|r| - 1])
  {
    if s != [] && IsSpace(s[|s| - 1]) then TrimRight(s[..|s| - 1]) else s
  }

  /** `s.strip()`. */
  function Strip(s: string): string {
    TrimRight(TrimLeft(s))
  }

  /** The whitespace `Strip` removes in front. */
  function LeadingSpace(s: string): string {
    s[..|s| - |TrimLeft(s)|]
  }

  /** The whitespace `Strip` removes behind. */
  function TrailingSpace(s: string): string {
    TrimLeft(s)[|Strip(s)|..]
  }

  lemma AllSpaceConcat(a: string, b: string)
    requires AllSpace(a) && AllSpace(b)
    ensures AllSpace(a + b)
  {
    forall k | 0 <= k < |a + b| ensures IsSpace((a + b)[k]) {
      if k >= |a| { assert (a + b)[k] == b[k - |a|]; }
    }
  }

  /** The result of `Strip` is what lies between an all-whitespace prefix
      and an all-whitespace suffix of `s`, and has no whitespace at either
      end. */
  lemma StripParts(s: string)
    ensures s == LeadingSpace(s) + Strip(s) + TrailingSpace(s)
    ensures AllSpace(LeadingSpace(s)) && AllSpace(TrailingSpace(s))
    ensures Stripped(Strip(s))
  {
    TrimLeftParts(s);
    TrimRightParts(TrimLeft(s));
    StrippedParts(TrimLeft(s));
  }

  lemma {:induction false} TrimLeftParts(s: string)
    ensures s == LeadingSpace(s) + TrimLeft(s) && AllSpace(LeadingSpace(s))
  {
    if s != [] && IsSpace(s[0]) {
      TrimLeftParts(s[1..]);
      assert LeadingSpace(s) == [s[0]] + LeadingSpace(s[1..]);
      assert s == [s[0]] + s[1..];
    }
  }

  lemma {:induction false} TrimRightParts(t: string)
    ensures t == TrimRight(t) + t[|TrimRight(t)|..] && AllSpace(t[|TrimRight(t)|..])
  {
    if t != [] && IsSpace(t[|t| - 1]) {
      var u := t[..|t| - 1];
      TrimRightParts(u);
      var n := |TrimRight(u)|;
      assert t == u + [t[|t| - 1]];
      assert t[n..] == u[n..] + [t[|t| - 1]];
    }
  }

  lemma {:induction false} StrippedParts(t: string)
    requires t == [] || !IsSpace(t[0])
    ensures Stripped(TrimRight(t))
  {
    TrimRightParts(t);
    var r := TrimRight(t);
    assert r == [] || r[0] == t[0];
  }

  lemma TrimLeftAllSpace(b: string)
    requires AllSpace(b)
    ensures TrimLeft(b) == []
  {
    if b != [] {
      TrimLeftAllSpace(b[1..]);
    }
  }

  lemma TrimLeftSkips(a: string, u: string)
    requires AllSpace(a)
    ensures TrimLeft(a + u) == TrimLeft(u)
  {
    if a == [] {
      assert a + u == u;
    } else {
      assert (a + u)[1..] == a[1..] + u;
      TrimLeftSkips(a[1..], u);
    }
  }

  lemma TrimRightSkips(u: string, b: string)
    requires AllSpace(b)
    ensures TrimRight(u + b) == TrimRight(u)
  {
    if b == [] {
      assert u + b == u;
    } else {
      assert (u + b)[..|u + b| - 1] == u + b[..|b| - 1];
      TrimRightSkips(u, b[..|b| - 1]);
    }
  }

  /** `Strip` is determined by its characterisation: whatever whitespace
      surrounds a string with no whitespace at its ends is exactly what
      `Strip` removes. */
  lemma {:induction false} StripUnique(a: string, t: string, b: string)
    requires AllSpace(a) && Stripped(t) && AllSpace(b)
    ensures Strip(a + t + b) == t
  {
    assert a + t + b == a + (t + b);
    TrimLeftSkips(a, t + b);
    if t == [] {
      assert t + b == b;
      TrimLeftAllSpace(b);
    } else {
      assert TrimLeft(t + b) == t + b;
      TrimRightSkips(t, b);
    }
  }

  /** Stripping twice is stripping once. */
  lemma StripIdempotent(s: string)
    ensures Strip(Strip(s)) == Strip(s)
  {
    StripParts(s);
    StripUnique([], Strip(s), []);
    assert [] + Strip(s) + [] == Strip(s);
  }

  /** A string strips to nothing exactly when it is all whitespace. */
  lemma StripEmptyIff(s: string)
    ensures Strip(s) == [] <==> AllSpace(s)
  {
    StripParts(s);
    if AllSpace(s) {
      StripUnique(s, [], []);
      assert s + [] + [] == s;
    }
    if Strip(s) == [] {
      AllSpaceConcat(LeadingSpace(s), TrailingSpace(s));
      assert s == LeadingSpace(s) + TrailingSpace(s);
    }
  }

  /** Whitespace in front of or behind the text does not change the
      result of `Strip`. */
  lemma StripIgnoresSpace(a: string, u: string, b: string)
    requires AllSpace(a) && AllSpace(b)
    ensures Strip(a + u + b) == Strip(u)
  {
    StripParts(u);
    var lead, trail := LeadingSpace(u), TrailingSpace(u);
    assert a + u + b == (a + lead) + Strip(u) + (trail + b);
    AllSpaceConcat(a, lead);
    AllSpaceConcat(trail, b);
    StripUnique(a + lead, Strip(u), trail + b);
  }

  /** `s.split(sep)` for a single separator character: the maximal
      separator-free pieces, in order; there is always at least one piece,
      so `"".split(sep)` is `[""]` and a trailing separator gives a
      trailing empty piece. */
  function Split(s: string, sep: char): (r: seq<string>)
    ensures |r| >= 1
    ensures forall k :: 0 <= k < |r| ==> sep !in r[k]
  {
    if s == [] then [[]]
    else
      var rest := Split(s[1..], sep);
      if s[0] == sep then [[]] + rest
      else [[s[0]] + rest[0]] + rest[1..]
  }

  /** `sep.join(parts)`. */
  function Join(parts: seq<string>, sep: char): string {
    if parts == [] then []
    else if |parts| == 1 then parts[0]
    else parts[0] + [sep] + Join(parts[1..], sep)
  }

  /** Joining the pieces of a split gives back the original text. */
  lemma {:induction false} JoinSplit(s: string, sep: char)
    ensures Join(Split(s, sep), sep) == s
  {
    if s != [] {
      var rest := Split(s[1..], sep);
      JoinSplit(s[1..], sep);
      if s[0] == sep {
        assert Split(s, sep) == [[]] + rest;
        assert ([[]] + rest)[1..] == rest;
      } else {
        var r := Split(s, sep);
        assert r == [[s[0]] + rest[0]] + rest[1..];
        if |rest| == 1 {
          assert s == [s[0]] + s[1..];
        } else {
          assert r[1..] == rest[1..];
          assert Join(rest, sep) == rest[0] + [sep] + Join(rest[1..], sep);
        }
      }
    }
  }

  /** A separator-free text is a single piece. */
  lemma {:induction false} SplitNoSep(s: string, sep: char)
    requires sep !in s
    ensures Split(s, sep) == [s]
  {
    if s != [] {
      SplitNoSep(s[1..], sep);
      assert [s[0]] + s[1..] == s;
    }
  }

  /** Splitting at a separator: the pieces of each side, concatenated. */
  lemma {:induction false} SplitConcat(a: string, b: string, sep: char)
    ensures Split(a + [sep] + b, sep) == Split(a, sep) + Split(b, sep)
  {
    var s := a + [sep] + b;
    if a == [] {
      assert s[1..] == b;
    } else {
      assert s[1..] == a[1..] + [sep] + b;
      SplitConcat(a[1..], b, sep);
      var ra := Split(a[1..], sep);
      if a[0] != sep {
        assert ([[a[0]] + ra[0]] + ra[1..]) + Split(b, sep)
            == [[a[0]] + (ra + Split(b, sep))[0]] + (ra + Split(b, sep))[1..];
      }
    }
  }

  /** Splitting a join of separator-free pieces gives back the pieces. */
  lemma {:induction false} SplitJoin(parts: seq<string>, sep: char)
    requires |parts| >= 1
    requires forall k :: 0 <= k < |parts| ==> sep !in parts[k]
    ensures Split(Join(parts, sep), sep) == parts
  {
    if |parts| == 1 {
      SplitNoSep(parts[0], sep);
    } else {
      SplitJoin(parts[1..], sep);
      SplitConcat(parts[0], Join(parts[1..], sep), sep);
      SplitNoSep(parts[0], sep);
      assert [parts[0]] + parts[1..] == parts;
    }
  }

  /** Appending separator-free text extends the last piece. */
  lemma {:induction false} SplitAppend(s: string, w: string, sep: char)
    requires sep !in w
    ensures var r := Split(s, sep);
      Split(s + w, sep) == r[..|r| - 1] + [r[|r| - 1] + w]
  {
    if s == [] {
      assert s + w == w;
      SplitNoSep(w, sep);
    } else {
      assert (s + w)[1..] == s[1..] + w;
      SplitAppend(s[1..], w, sep);
      var rest := Split(s[1..], sep);
      var n := |rest|;
      if s[0] != sep {
        if n == 1 {
          assert [s[0]] + (rest[0] + w) == ([s[0]] + rest[0]) + w;
        } else {
          var longer := rest[..n - 1] + [rest[n - 1] + w];
          assert longer[0] == rest[0];
          assert longer[1..] == rest[1..n - 1] + [rest[n - 1] + w];
        }
      }
    }
  }
}
