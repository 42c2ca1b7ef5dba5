/** The Python str operations the clients rely on, with their meaning proved. */
module Text {

  /** str.isspace() for one character: the separators str.split() breaks on. */
  predicate IsSpace(c: char) {
    var v := c as int;
    || 0x09 <= v <= 0x0D || 0x1C <= v <= 0x20 || v == 0x85 || v == 0xA0 || v == 0x1680
    || 0x2000 <= v <= 0x200A || v == 0x2028 || v == 0x2029 || v == 0x202F || v == 0x205F
    || v == 0x3000
  }

  predicate NoSpace(s: string) {
    forall i :: 0 <= i < |s| ==> !IsSpace(s[i])
  }

  /** The characters of s that are not whitespace, in order. */
  function RemoveSpaces(s: string): string {
    if s == "" then "" else (if IsSpace(s[0]) then "" else [s[0]]) + RemoveSpaces(s[1..])
  }

  function Concat(ws: seq<string>): string {
    if ws == [] then "" else ws[0] + Concat(ws[1..])
  }

  /** The words joined by single blanks: " ".join(ws). */
  function JoinSpaced(ws: seq<string>): string {
    if ws == [] then "" else if |ws| == 1 then ws[0] else ws[0] + " " + JoinSpaced(ws[1..])
  }

  /** str.split() with no argument: the maximal runs of non-whitespace characters. */
  function Split(s: string): (r: seq<string>)
    ensures forall i :: 0 <= i < |r| ==> r[i] != "" && NoSpace(r[i])
    ensures Concat(r) == RemoveSpaces(s)
  {
    SplitFrom(s, "")
  }

  function Flush(word: string): seq<string> {
    if word == "" then [] else [word]
  }

  /** The split of s when the word `word` is already under way. */
  function SplitFrom(s: string, word: string): (r: seq<string>)
    requires NoSpace(word)
    ensures forall i :: 0 <= i < |r| ==> r[i] != "" && NoSpace(r[i])
    ensures Concat(r) == word + RemoveSpaces(s)
    decreases |s|
  {
    if s == "" then
      Flush(word)
    else if IsSpace(s[0]) then
      var t := SplitFrom(s[1..], "");
      ConcatAppend(Flush(word), t);
      Flush(word) + t
    else
      var t := SplitFrom(s[1..], word + [s[0]]);
      assert word + RemoveSpaces(s) == word + [s[0]] + RemoveSpaces(s[1..]);
      t
  }

  lemma {:induction false} ConcatAppend(a: seq<string>, b: seq<string>)
    ensures Concat(a + b) == Concat(a) + Concat(b)
  {
    if a != [] {
      assert (a + b)[0] == a[0];
      assert (a + b)[1..] == a[1..] + b;
      ConcatAppend(a[1..], b);
      calc {
        Concat(a + b);
        a[0] + Concat(a[1..] + b);
        a[0] + (Concat(a[1..]) + Concat(b));
        (a[0] + Concat(a[1..])) + Concat(b);
        Concat(a) + Concat(b);
      }
    } else {
      assert a + b == b;
    }
  }

  /** A run of non-blank characters just extends the word under way. */
  lemma {:induction false} SplitFromWord(w: string, rest: string, word: string)
    requires NoSpace(word) && NoSpace(w)
    ensures SplitFrom(w + rest, word) == SplitFrom(rest, word + w)
    decreases |w|
  {
    if w == "" {
      assert w + rest == rest && word + w == word;
    } else {
      assert (w + rest)[0] == w[0] && !IsSpace(w[0]);
      assert (w + rest)[1..] == w[1..] + rest;
      assert word + w == (word + [w[0]]) + w[1..];
      assert NoSpace(word + [w[0]]);
      SplitFromWord(w[1..], rest, word + [w[0]]);
      calc {
        SplitFrom(w + rest, word);
        SplitFrom(w[1..] + rest, word + [w[0]]);
        SplitFrom(rest, word + [w[0]] + w[1..]);
      }
    }
  }

  /** Round trip: splitting blank-joined words gives the words back. */
  lemma {:induction false} SplitJoinSpaced(ws: seq<string>)
    requires forall i :: 0 <= i < |ws| ==> ws[i] != "" && NoSpace(ws[i])
    ensures Split(JoinSpaced(ws)) == ws
  {
    if |ws| == 1 {
      assert ws[0] + "" == ws[0] && "" + ws[0] == ws[0];
      SplitFromWord(ws[0], "", "");
      assert Split(JoinSpaced(ws)) == SplitFrom("", ws[0]) == [ws[0]];
    } else if |ws| > 1 {
      var tail := JoinSpaced(ws[1..]);
      assert JoinSpaced(ws) == ws[0] + (" " + tail);
      SplitFromWord(ws[0], " " + tail, "");
      assert "" + ws[0] == ws[0];
      assert (" " + tail)[0] == ' ' && IsSpace(' ');
      assert (" " + tail)[1..] == tail;
      SplitJoinSpaced(ws[1..]);
      assert [ws[0]] + ws[1..] == ws;
    }
  }

  predicate AllSpace(s: string) {
    forall i :: 0 <= i < |s| ==> IsSpace(s[i])
  }

  /** gaps[0] + ws[0] + gaps[1] + ... + ws[n-1] + gaps[n]: words laid out between runs of whitespace. */
  function Interleave(gaps: seq<string>, ws: seq<string>): string
    requires |gaps| == |ws| + 1
    decreases |ws|
  {
    if ws == [] then gaps[0] else gaps[0] + ws[0] + Interleave(gaps[1..], ws[1..])
  }

  /**
   * The layout of any text: non-empty words without whitespace, separated by
   * non-empty runs of whitespace, with optional whitespace at either end.
   */
  predicate Spaced(gaps: seq<string>, ws: seq<string>) {
    && |gaps| == |ws| + 1
    && (forall i :: 0 <= i < |ws| ==> ws[i] != "" && NoSpace(ws[i]))
    && (forall i :: 0 <= i < |gaps| ==> AllSpace(gaps[i]))
    && (forall i :: 0 < i < |ws| ==> gaps[i] != "")
  }

  /** A whitespace character ends the word under way. */
  lemma SplitFromSpace(c: char, t: string, word: string)
    requires IsSpace(c) && NoSpace(word)
    ensures SplitFrom([c] + t, word) == Flush(word) + SplitFrom(t, "")
  {
    assert ([c] + t)[0] == c && ([c] + t)[1..] == t;
  }

  /** Leading whitespace does not change the split. */
  lemma {:induction false} SkipSpaces(g: string, rest: string)
    requires AllSpace(g)
    ensures SplitFrom(g + rest, "") == SplitFrom(rest, "")
    decreases |g|
  {
    if g != "" {
      assert g + rest == [g[0]] + (g[1..] + rest);
      SplitFromSpace(g[0], g[1..] + rest, "");
      assert Flush("") + SplitFrom(g[1..] + rest, "") == SplitFrom(g[1..] + rest, "");
      SkipSpaces(g[1..], rest);
    } else {
      assert g + rest == rest;
    }
  }

  lemma InterleaveCons(gaps: seq<string>, ws: seq<string>)
    requires |gaps| == |ws| + 1 && ws != []
    ensures Interleave(gaps, ws) == gaps[0] + (ws[0] + Interleave(gaps[1..], ws[1..]))
  {
  }

  /** Extending the first gap extends the layout at its front. */
  lemma PrependGap(c: char, gaps: seq<string>, ws: seq<string>)
    requires |gaps| == |ws| + 1
    ensures Interleave([[c] + gaps[0]] + gaps[1..], ws) == [c] + Interleave(gaps, ws)
  {
    var g := [[c] + gaps[0]] + gaps[1..];
    assert g[0] == [c] + gaps[0] && g[1..] == gaps[1..];
  }

  lemma SpacedTail(gaps: seq<string>, ws: seq<string>)
    requires Spaced(gaps, ws) && ws != []
    ensures Spaced(gaps[1..], ws[1..])
  {
    assert forall i :: 0 <= i < |gaps[1..]| ==> gaps[1..][i] == gaps[i + 1];
    assert forall i :: 0 <= i < |ws[1..]| ==> ws[1..][i] == ws[i + 1];
  }

  /** After a word, the layout goes on with whitespace or ends. */
  lemma SpacedAfterWord(gaps: seq<string>, ws: seq<string>)
    requires Spaced(gaps, ws) && ws != []
    ensures var t := Interleave(gaps[1..], ws[1..]);
      (t == "" ==> ws[1..] == []) && (t != "" ==> IsSpace(t[0]))
  {
    var t := Interleave(gaps[1..], ws[1..]);
    if ws[1..] == [] {
      assert t == gaps[1];
    } else {
      InterleaveCons(gaps[1..], ws[1..]);
      assert gaps[1..][0] == gaps[1] != "";
      assert t[0] == gaps[1][0];
    }
  }

  /** Splitting words laid out between runs of whitespace gives the words back. */
  lemma {:induction false} SplitSpaced(gaps: seq<string>, ws: seq<string>)
    requires Spaced(gaps, ws)
    ensures Split(Interleave(gaps, ws)) == ws
    decreases |ws|
  {
    if ws == [] {
      assert gaps[0] + "" == gaps[0];
      SkipSpaces(gaps[0], "");
    } else {
      var t := Interleave(gaps[1..], ws[1..]);
      InterleaveCons(gaps, ws);
      SkipSpaces(gaps[0], ws[0] + t);
      SplitFromWord(ws[0], t, "");
      assert "" + ws[0] == ws[0];
      SpacedTail(gaps, ws);
      SplitSpaced(gaps[1..], ws[1..]);
      SpacedAfterWord(gaps, ws);
      if t != "" {
        assert t == [t[0]] + t[1..];
        SplitFromSpace(t[0], t[1..], ws[0]);
        SplitFromSpace(t[0], t[1..], "");
        assert Flush("") + SplitFrom(t[1..], "") == SplitFrom(t[1..], "");
      }
      assert [ws[0]] + ws[1..] == ws;
    }
  }

  /** Every text is laid out as its split words between runs of whitespace. */
  lemma SplitLayout(s: string) returns (gaps: seq<string>)
    ensures Spaced(gaps, Split(s)) && Interleave(gaps, Split(s)) == s
  {
    gaps := SplitFromLayout(s, "");
    assert "" + s == s;
  }

  /** A whitespace character joins the first gap of the rest's layout. */
  lemma LayoutSpace(c: char, g: seq<string>, t: seq<string>) returns (gaps: seq<string>)
    requires IsSpace(c) && Spaced(g, t)
    ensures Spaced(gaps, t) && Interleave(gaps, t) == [c] + Interleave(g, t)
    ensures gaps[0] != ""
  {
    gaps := [[c] + g[0]] + g[1..];
    PrependGap(c, g, t);
    assert forall i :: 1 <= i < |gaps| ==> gaps[i] == g[i];
  }

  /** A finished word, then whitespace, then the rest's layout. */
  lemma LayoutWord(word: string, c: char, g: seq<string>, t: seq<string>) returns (gaps: seq<string>)
    requires word != "" && NoSpace(word) && IsSpace(c) && Spaced(g, t)
    ensures Spaced(gaps, [word] + t) && Interleave(gaps, [word] + t) == word + ([c] + Interleave(g, t))
    ensures gaps[0] == ""
  {
    var first := LayoutSpace(c, g, t);
    gaps := [""] + first;
    var ws := [word] + t;
    assert gaps[1..] == first && ws[1..] == t && ws[0] == word;
    InterleaveCons(gaps, ws);
    assert "" + (word + ([c] + Interleave(g, t))) == word + ([c] + Interleave(g, t));
    assert forall i :: 1 <= i < |gaps| ==> gaps[i] == first[i - 1];
    assert forall i :: 1 <= i < |ws| ==> ws[i] == t[i - 1];
  }

  lemma {:induction false} SplitFromLayout(s: string, word: string) returns (gaps: seq<string>)
    requires NoSpace(word)
    ensures Spaced(gaps, SplitFrom(s, word)) && Interleave(gaps, SplitFrom(s, word)) == word + s
    ensures word != "" ==> gaps[0] == ""
    decreases |s|
  {
    if s == "" {
      if word == "" {
        gaps := [""];
      } else {
        gaps := ["", ""];
        assert Interleave(gaps, [word]) == "" + (word + "");
      }
      assert word + s == word;
    } else if IsSpace(s[0]) {
      assert s == [s[0]] + s[1..];
      SplitFromSpace(s[0], s[1..], word);
      var g := SplitFromLayout(s[1..], "");
      assert "" + s[1..] == s[1..];
      if word == "" {
        assert Flush("") + SplitFrom(s[1..], "") == SplitFrom(s[1..], "");
        gaps := LayoutSpace(s[0], g, SplitFrom(s[1..], ""));
        assert word + s == s;
      } else {
        gaps := LayoutWord(word, s[0], g, SplitFrom(s[1..], ""));
      }
    } else {
      assert NoSpace(word + [s[0]]);
      gaps := SplitFromLayout(s[1..], word + [s[0]]);
      assert (word + [s[0]]) + s[1..] == word + s;
    }
  }

  /** str.split(sep): the pieces between occurrences of sep, always at least one. */
  function SplitOn(s: string, sep: char): (r: seq<string>)
    ensures |r| >= 1
    ensures forall i :: 0 <= i < |r| ==> sep !in r[i]
    ensures JoinOn(r, sep) == s
  {
    if s == "" then [""]
    else
      var t := SplitOn(s[1..], sep);
      if s[0] == sep then
        [""] + t
      else
        assert JoinOn([[s[0]] + t[0]] + t[1..], sep) == [s[0]] + JoinOn(t, sep);
        [[s[0]] + t[0]] + t[1..]
  }

  /** sep.join(parts), the inverse of SplitOn. */
  function JoinOn(parts: seq<string>, sep: char): string
    requires |parts| >= 1
  {
    if |parts| == 1 then parts[0] else parts[0] + [sep] + JoinOn(parts[1..], sep)
  }

  /** Pieces without the separator determine their join: SplitOn is the only such decomposition. */
  lemma {:induction false} SplitOnJoin(parts: seq<string>, sep: char)
    requires |parts| >= 1 && forall i :: 0 <= i < |parts| ==> sep !in parts[i]
    ensures SplitOn(JoinOn(parts, sep), sep) == parts
    decreases |parts|, |parts[0]|
  {
    var s := JoinOn(parts, sep);
    if parts[0] == "" {
      if |parts| > 1 {
        assert s == [sep] + JoinOn(parts[1..], sep);
        assert s[1..] == JoinOn(parts[1..], sep);
        SplitOnJoin(parts[1..], sep);
        assert [""] + parts[1..] == parts;
      }
    } else {
      var shorter := [parts[0][1..]] + parts[1..];
      assert s == [parts[0][0]] + JoinOn(shorter, sep) by {
        if |parts| > 1 {
          assert shorter[1..] == parts[1..];
        }
      }
      assert s[1..] == JoinOn(shorter, sep);
      SplitOnJoin(shorter, sep);
      assert [parts[0][0]] + shorter[0] == parts[0];
      assert parts == [[parts[0][0]] + shorter[0]] + shorter[1..];
    }
  }

  /** str.split(sep) gives one piece more than there are separators. */
  lemma {:induction false} SplitOnCount(s: string, sep: char)
    ensures |SplitOn(s, sep)| == multiset(s)[sep] + 1
  {
    if s != "" {
      SplitOnCount(s[1..], sep);
      assert s == [s[0]] + s[1..];
      assert multiset(s) == multiset([s[0]]) + multiset(s[1..]);
    }
  }

  /** The index of the first sep in s, if any. */
  function Find(s: string, sep: char): (r: int)
    ensures -1 <= r < |s|
    ensures r == -1 <==> sep !in s
    ensures r >= 0 ==> s[r] == sep && sep !in s[..r]
  {
    if s == "" then -1
    else if s[0] == sep then 0
    else
      var k := Find(s[1..], sep);
      assert s[1..] == s[1..];
      if k == -1 then -1 else
        assert s[..k + 1] == [s[0]] + s[1..][..k];
        k + 1
  }

  /** str.split(sep, 1): the text before the first sep and the text after it. */
  function SplitOnce(s: string, sep: char): (r: seq<string>)
    ensures sep !in s ==> r == [s]
    ensures sep in s ==> |r| == 2 && sep !in r[0] && r[0] + [sep] + r[1] == s
  {
    var k := Find(s, sep);
    if k == -1 then [s] else [s[..k], s[k + 1..]]
  }

  /** s[1:] in Python, which is "" for the empty string. */
  function DropFirst(s: string): (r: string)
    ensures s != "" ==> r == s[1..]
    ensures s == "" ==> r == ""
  {
    if s == "" then "" else s[1..]
  }

  predicate StartsWith(s: string, prefix: string) {
    |prefix| <= |s| && s[..|prefix|] == prefix
  }

  /** `sub in s` for strings: sub occurs at some position of s. */
  predicate Contains(s: string, sub: string)
    decreases |s|
  {
    StartsWith(s, sub) || (s != "" && Contains(s[1..], sub))
  }

  predicate OccursAt(s: string, sub: string, i: int) {
    0 <= i <= |s| - |sub| && s[i..i + |sub|] == sub
  }

  /** Contains means an occurrence at some offset. */
  lemma {:induction false} ContainsAt(s: string, sub: string)
    ensures Contains(s, sub) <==> exists i :: OccursAt(s, sub, i)
    decreases |s|
  {
    if s == "" {
      if Contains(s, sub) {
        assert OccursAt(s, sub, 0);
      }
      if exists i :: OccursAt(s, sub, i) {
        var i :| OccursAt(s, sub, i);
        assert i == 0 && StartsWith(s, sub);
      }
    } else {
      ContainsAt(s[1..], sub);
      if Contains(s, sub) {
        if StartsWith(s, sub) {
          assert OccursAt(s, sub, 0);
        } else {
          var i :| OccursAt(s[1..], sub, i);
          assert s[i + 1..i + 1 + |sub|] == s[1..][i..i + |sub|];
          assert OccursAt(s, sub, i + 1);
        }
      }
      if exists i :: OccursAt(s, sub, i) {
        var i :| OccursAt(s, sub, i);
        if i > 0 {
          assert s[1..][i - 1..i - 1 + |sub|] == s[i..i + |sub|];
          assert OccursAt(s[1..], sub, i - 1);
        } else {
          assert StartsWith(s, sub);
        }
      }
    }
  }
}
