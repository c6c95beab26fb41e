/** Parsing the employee-ID text area: the raw text is stripped, split
    into lines at `'\n'`, every line is stripped, and the lines that are
    then empty are dropped. */
module EmployeeIds {
  import opened Text

  function Lines(raw: string): seq<string> {
    Split(raw, '\n')
  }

  /** The stripped lines that are not blank, in their original order. */
  function KeepIds(lines: seq<string>): (ids: seq<string>)
    ensures |ids| <= |lines|
  {
    if lines == [] then []
    else (if Strip(lines[0]) != [] then [Strip(lines[0])] else []) + KeepIds(lines[1..])
  }

  /** What an employee ID looks like after parsing. */
  predicate WellFormedId(id: string) {
    id != [] && Stripped(id) && '\n' !in id
  }

  /** The list of employee IDs read from the text area. Every entry is
      non-empty, has no surrounding whitespace and lies on one line. */
  function ParseIds(raw: string): (ids: seq<string>)
    ensures forall k :: 0 <= k < |ids| ==> WellFormedId(ids[k])
  {
    KeepIdsWellFormed(Lines(Strip(raw)));
    KeepIds(Lines(Strip(raw)))
  }

  lemma {:induction false} KeepIdsWellFormed(lines: seq<string>)
    requires forall k :: 0 <= k < |lines| ==> '\n' !in lines[k]
    ensures forall k :: 0 <= k < |KeepIds(lines)| ==> WellFormedId(KeepIds(lines)[k])
  {
    if lines != [] {
      KeepIdsWellFormed(lines[1..]);
      var s := lines[0];
      StripParts(s);
      forall k | 0 <= k < |Strip(s)| ensures Strip(s)[k] != '\n' {
        assert Strip(s)[k] == s[|LeadingSpace(s)| + k];
      }
    }
  }

  /** Filtering lines commutes with concatenating them. */
  lemma {:induction false} KeepIdsAppend(a: seq<string>, b: seq<string>)
    ensures KeepIds(a + b) == KeepIds(a) + KeepIds(b)
  {
    if a == [] {
      assert a + b == b;
    } else {
      assert (a + b)[1..] == a[1..] + b;
      KeepIdsAppend(a[1..], b);
    }
  }

  /** Whitespace (newlines included) in front of the text changes no ID. */
  lemma {:induction false} LeadingSpaceIgnored(w: string, s: string)
    requires AllSpace(w)
    ensures KeepIds(Lines(w + s)) == KeepIds(Lines(s))
  {
    if w == [] {
      assert w + s == s;
    } else {
      var t := w[1..] + s;
      assert w + s == [w[0]] + t;
      assert (w + s)[1..] == t;
      LeadingSpaceIgnored(w[1..], s);
      var lt := Lines(t);
      if w[0] == '\n' {
        assert Lines(w + s) == [[]] + lt;
        assert ([[]] + lt)[1..] == lt;
      } else {
        var first := [w[0]] + lt[0];
        assert Lines(w + s) == [first] + lt[1..];
        StripIgnoresSpace([w[0]], lt[0], []);
        assert [w[0]] + lt[0] + [] == first;
        assert Strip(first) == Strip(lt[0]);
        assert ([first] + lt[1..])[1..] == lt[1..];
        assert lt == [lt[0]] + lt[1..];
      }
    }
  }

  /** Whitespace (newlines included) behind the text changes no ID. */
  lemma {:induction false} TrailingSpaceIgnored(s: string, w: string)
    requires AllSpace(w)
    ensures KeepIds(Lines(s + w)) == KeepIds(Lines(s))
    decreases |w|
  {
    if '\n' in w {
      var k :| 0 <= k < |w| && w[k] == '\n';
      var w1, w2 := w[..k], w[k + 1..];
      assert w == w1 + ['\n'] + w2;
      assert s + w == (s + w1) + ['\n'] + w2;
      TrailingSpaceIgnored(s, w1);
      TrailingLineIgnored(s + w1, w2);
    } else {
      TrailingSpaceOnLastLine(s, w);
    }
  }

  /** A trailing newline followed by whitespace only adds blank lines. */
  lemma TrailingLineIgnored(s: string, w: string)
    requires AllSpace(w)
    ensures KeepIds(Lines(s + ['\n'] + w)) == KeepIds(Lines(s))
  {
    SplitConcat(s, w, '\n');
    KeepIdsAppend(Lines(s), Lines(w));
    LeadingSpaceIgnored(w, []);
    assert w + [] == w;
    assert Lines([]) == [[]];
  }

  /** Whitespace without a newline at the end only pads the last line. */
  lemma TrailingSpaceOnLastLine(s: string, w: string)
    requires AllSpace(w) && '\n' !in w
    ensures KeepIds(Lines(s + w)) == KeepIds(Lines(s))
  {
    SplitAppend(s, w, '\n');
    var r := Lines(s);
    var n := |r|;
    var init := r[..n - 1];
    assert r == init + [r[n - 1]];
    KeepIdsAppend(init, [r[n - 1]]);
    KeepIdsAppend(init, [r[n - 1] + w]);
    StripIgnoresSpace([], r[n - 1], w);
    assert [] + r[n - 1] + w == r[n - 1] + w;
    assert [r[n - 1] + w][1..] == [] && [r[n - 1]][1..] == [];
  }

  /** The outer `strip()` of the whole text is redundant: parsing is
      "strip every line and drop the blank ones". */
  lemma ParseIdsByLines(raw: string)
    ensures ParseIds(raw) == KeepIds(Lines(raw))
  {
    StripParts(raw);
    var lead, core, trail := LeadingSpace(raw), Strip(raw), TrailingSpace(raw);
    assert raw == lead + (core + trail);
    LeadingSpaceIgnored(lead, core + trail);
    TrailingSpaceIgnored(core, trail);
  }

  /** Line order is kept and nothing is deduplicated: the IDs of two blocks
      of text joined by a newline are the IDs of the first block followed by
      those of the second. */
  lemma ParseIdsConcat(a: string, b: string)
    ensures ParseIds(a + "\n" + b) == ParseIds(a) + ParseIds(b)
  {
    ParseIdsByLines(a + "\n" + b);
    ParseIdsByLines(a);
    ParseIdsByLines(b);
    SplitConcat(a, b, '\n');
    KeepIdsAppend(Lines(a), Lines(b));
  }

  /** A single line yields its stripped text as the one ID, or nothing if it
      is blank. */
  lemma ParseIdsOneLine(line: string)
    requires '\n' !in line
    ensures ParseIds(line) == if AllSpace(line) then [] else [Strip(line)]
  {
    ParseIdsByLines(line);
    SplitNoSep(line, '\n');
    StripEmptyIff(line);
    assert [line][1..] == [];
  }

  /** Parsing yields no ID exactly when the text is blank (empty or only
      whitespace). */
  lemma {:induction false} ParseIdsEmptyIff(raw: string)
    ensures ParseIds(raw) == [] <==> AllSpace(raw)
  {
    ParseIdsByLines(raw);
    JoinSplit(raw, '\n');
    KeepIdsEmptyIff(Lines(raw));
  }

  lemma {:induction false} KeepIdsEmptyIff(lines: seq<string>)
    requires |lines| >= 1
    ensures KeepIds(lines) == [] <==> AllSpace(Join(lines, '\n'))
  {
    StripEmptyIff(lines[0]);
    if |lines| == 1 {
      assert lines[1..] == [];
    } else {
      KeepIdsEmptyIff(lines[1..]);
      var rest := Join(lines[1..], '\n');
      var j := Join(lines, '\n');
      assert j == lines[0] + ['\n'] + rest;
      if AllSpace(lines[0]) && AllSpace(rest) {
        AllSpaceConcat(lines[0], ['\n']);
        AllSpaceConcat(lines[0] + ['\n'], rest);
      }
      if AllSpace(j) {
        assert AllSpace(lines[0]) by {
          forall k | 0 <= k < |lines[0]| ensures IsSpace(lines[0][k]) {
            assert lines[0][k] == j[k];
          }
        }
        assert AllSpace(rest) by {
          forall k | 0 <= k < |rest| ensures IsSpace(rest[k]) {
            assert rest[k] == j[|lines[0]| + 1 + k];
          }
        }
      }
    }
  }

  /** Number of lines whose stripped text is `id`. */
  function CountLines(lines: seq<string>, id: string): nat {
    if lines == [] then 0
    else (if Strip(lines[0]) == id then 1 else 0) + CountLines(lines[1..], id)
  }

  /** Duplicates are kept: an ID occurs in the result as many times as there
      are lines that strip to it. */
  lemma {:induction false} ParseIdsMultiplicity(raw: string, id: string)
    requires id != []
    ensures multiset(ParseIds(raw))[id] == CountLines(Lines(raw), id)
  {
    ParseIdsByLines(raw);
    KeepIdsMultiplicity(Lines(raw), id);
  }

  lemma {:induction false} KeepIdsMultiplicity(lines: seq<string>, id: string)
    requires id != []
    ensures multiset(KeepIds(lines))[id] == CountLines(lines, id)
  {
    if lines != [] {
      KeepIdsMultiplicity(lines[1..], id);
    }
  }
}
