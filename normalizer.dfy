/**
 * The normaliser: turns the subject text of a record into a base slug.
 * Letters are lower-cased, every run of characters that are not ASCII letters
 * or digits becomes a single `-`, and no `-` is left at either end.
 * A blank subject gives the empty slug; nothing here can fail.
 */
module Normalizer {

  predicate IsAlnum(c: char)
  {
    'a' <= c <= 'z' || 'A' <= c <= 'Z' || '0' <= c <= '9'
  }

  function Lower(c: char): char
  {
    if 'A' <= c <= 'Z' then (c as int - 'A' as int + 'a' as int) as char else c
  }

  /** The characters a slug word is made of: lower-case letters and digits. */
  predicate IsWordChar(c: char)
  {
    'a' <= c <= 'z' || '0' <= c <= '9'
  }

  predicate IsWord(w: string)
  {
    |w| > 0 && forall i :: 0 <= i < |w| ==> IsWordChar(w[i])
  }

  predicate AllWords(ws: seq<string>)
  {
    forall k :: 0 <= k < |ws| ==> IsWord(ws[k])
  }

  /** The shape of every normalised slug: words separated by single hyphens. */
  predicate IsSlugToken(t: string)
  {
    && (forall i :: 0 <= i < |t| ==> IsWordChar(t[i]) || t[i] == '-')
    && (|t| > 0 ==> t[0] != '-' && t[|t| - 1] != '-')
    && (forall i :: 0 <= i < |t| - 1 && t[i] == '-' ==> t[i + 1] != '-')
  }

  /**
   * The maximal runs of letters and digits of `s`, lower-cased, in order;
   * `cur` is the part of the current run already read.
   */
  function WordsFrom(s: string, cur: string): seq<string>
    decreases |s|
  {
    if s == [] then
      (if cur == [] then [] else [cur])
    else if IsAlnum(s[0]) then
      WordsFrom(s[1..], cur + [Lower(s[0])])
    else
      (if cur == [] then [] else [cur]) + WordsFrom(s[1..], [])
  }

  function Words(s: string): seq<string>
  {
    WordsFrom(s, [])
  }

  /** The words joined with single hyphens. */
  function Join(ws: seq<string>): string
  {
    if |ws| == 0 then ""
    else if |ws| == 1 then ws[0]
    else ws[0] + "-" + Join(ws[1..])
  }

  /** The base slug of a subject text. */
  function Normalize(s: string): (r: string)
    ensures IsSlugToken(r)
  {
    WordsFromAreWords(s, []);
    JoinIsToken(Words(s));
    Join(Words(s))
  }

  lemma {:induction false} WordsFromAreWords(s: string, cur: string)
    requires forall i :: 0 <= i < |cur| ==> IsWordChar(cur[i])
    ensures AllWords(WordsFrom(s, cur))
    decreases |s|
  {
    if s == [] {
    } else if IsAlnum(s[0]) {
      WordsFromAreWords(s[1..], cur + [Lower(s[0])]);
    } else {
      WordsFromAreWords(s[1..], []);
    }
  }

  lemma {:induction false} JoinIsToken(ws: seq<string>)
    requires AllWords(ws)
    ensures IsSlugToken(Join(ws))
    ensures |Join(ws)| == 0 <==> ws == []
  {
    if |ws| > 1 {
      var w, rest := ws[0], Join(ws[1..]);
      JoinIsToken(ws[1..]);
      var t := w + "-" + rest;
      assert Join(ws) == t;
      assert IsWord(w);
      forall i | 0 <= i < |t| - 1 && t[i] == '-'
        ensures t[i + 1] != '-'
      {
        if i > |w| {
          assert t[i] == rest[i - |w| - 1] && t[i + 1] == rest[i - |w|];
        }
      }
      assert t[|t| - 1] == rest[|rest| - 1];
    }
  }

  /** `s` with every letter lower-cased. */
  function LowerAll(s: string): string
  {
    seq(|s|, i requires 0 <= i < |s| => Lower(s[i]))
  }

  /** Reading a run of letters and digits adds it, lower-cased, to the current run. */
  lemma {:induction false} WordsFromRun(u: string, rest: string, cur: string)
    requires forall i :: 0 <= i < |u| ==> IsAlnum(u[i])
    ensures WordsFrom(u + rest, cur) == WordsFrom(rest, cur + LowerAll(u))
    decreases |u|
  {
    if u != [] {
      assert (u + rest)[0] == u[0] && (u + rest)[1..] == u[1..] + rest;
      WordsFromRun(u[1..], rest, cur + [Lower(u[0])]);
      assert cur + [Lower(u[0])] + LowerAll(u[1..]) == cur + LowerAll(u);
    } else {
      assert u + rest == rest && cur + LowerAll(u) == cur;
    }
  }

  /** Reading a slug word adds it unchanged to the current run. */
  lemma WordsFromWord(w: string, rest: string, cur: string)
    requires forall i :: 0 <= i < |w| ==> IsWordChar(w[i])
    ensures WordsFrom(w + rest, cur) == WordsFrom(rest, cur + w)
  {
    WordsFromRun(w, rest, cur);
    assert LowerAll(w) == w;
  }

  /** Splitting a joined list of words gives the words back. */
  lemma {:induction false} WordsOfJoin(ws: seq<string>)
    requires AllWords(ws)
    ensures Words(Join(ws)) == ws
  {
    if |ws| == 1 {
      WordsFromWord(ws[0], [], []);
      assert ws[0] + [] == ws[0] && [] + ws[0] == ws[0];
    } else if |ws| > 1 {
      var w, rest := ws[0], Join(ws[1..]);
      assert Join(ws) == w + ("-" + rest);
      WordsFromWord(w, "-" + rest, []);
      assert [] + w == w;
      assert ("-" + rest)[1..] == rest;
      assert WordsFrom("-" + rest, w) == [w] + WordsFrom(rest, []);
      WordsOfJoin(ws[1..]);
      assert [w] + ws[1..] == ws;
    }
  }

  /** Normalising a slug a second time changes nothing. */
  lemma NormalizeIdempotent(s: string)
    ensures Normalize(Normalize(s)) == Normalize(s)
  {
    WordsFromAreWords(s, []);
    WordsOfJoin(Words(s));
  }

  /** A run reader yields no words exactly when nothing is pending and no letter or digit follows. */
  lemma {:induction false} WordsFromEmpty(s: string, cur: string)
    ensures WordsFrom(s, cur) == [] <==> cur == [] && forall i :: 0 <= i < |s| ==> !IsAlnum(s[i])
    decreases |s|
  {
    if s != [] {
      if IsAlnum(s[0]) {
        WordsFromEmpty(s[1..], cur + [Lower(s[0])]);
      } else {
        WordsFromEmpty(s[1..], []);
        assert forall i :: 1 <= i < |s| ==> s[i] == s[1..][i - 1];
      }
    }
  }

  /** The subject is blank (no letter or digit) exactly when its slug is empty. */
  lemma NormalizeBlank(s: string)
    ensures Normalize(s) == "" <==> forall i :: 0 <= i < |s| ==> !IsAlnum(s[i])
  {
    WordsFromEmpty(s, []);
    WordsFromAreWords(s, []);
    JoinIsToken(Words(s));
  }

  /** Characters that are not letters or digits are dropped when no run is pending. */
  lemma {:induction false} WordsFromSkip(sep: string, rest: string)
    requires forall i :: 0 <= i < |sep| ==> !IsAlnum(sep[i])
    ensures WordsFrom(sep + rest, []) == WordsFrom(rest, [])
    decreases |sep|
  {
    if sep != [] {
      assert (sep + rest)[1..] == sep[1..] + rest;
      WordsFromSkip(sep[1..], rest);
    } else {
      assert sep + rest == rest;
    }
  }

  /** A run of letters or digits followed by a separator is one word, then the words of the rest. */
  lemma WordsStep(u: string, sep: string, rest: string)
    requires u != [] && forall i :: 0 <= i < |u| ==> IsAlnum(u[i])
    requires sep != [] && forall i :: 0 <= i < |sep| ==> !IsAlnum(sep[i])
    ensures Words(u + sep + rest) == [LowerAll(u)] + Words(rest)
  {
    assert u + sep + rest == u + (sep + rest);
    WordsFromRun(u, sep + rest, []);
    assert [] + LowerAll(u) == LowerAll(u);
    assert (sep + rest)[0] == sep[0] && (sep + rest)[1..] == sep[1..] + rest;
    WordsFromSkip(sep[1..], rest);
  }

  /** A subject that is one run of letters and digits is one word. */
  lemma WordsLast(u: string)
    requires u != [] && forall i :: 0 <= i < |u| ==> IsAlnum(u[i])
    ensures Words(u) == [LowerAll(u)]
  {
    WordsFromRun(u, [], []);
    assert u + [] == u && [] + LowerAll(u) == LowerAll(u);
  }

  /** The letters and digits of `s`, lower-cased, in order: the reference for what a slug holds. */
  function Alnums(s: string): string
  {
    if s == [] then ""
    else (if IsAlnum(s[0]) then [Lower(s[0])] else "") + Alnums(s[1..])
  }

  /** `t` with every hyphen deleted. */
  function Unhyphen(t: string): string
  {
    if t == [] then ""
    else (if t[0] == '-' then "" else [t[0]]) + Unhyphen(t[1..])
  }

  function Concat(ws: seq<string>): string
  {
    if ws == [] then "" else ws[0] + Concat(ws[1..])
  }

  lemma {:induction false} UnhyphenAppend(a: string, b: string)
    ensures Unhyphen(a + b) == Unhyphen(a) + Unhyphen(b)
    decreases |a|
  {
    if a == [] {
      assert a + b == b;
    } else {
      assert (a + b)[0] == a[0] && (a + b)[1..] == a[1..] + b;
      UnhyphenAppend(a[1..], b);
    }
  }

  lemma {:induction false} UnhyphenWord(w: string)
    requires forall i :: 0 <= i < |w| ==> IsWordChar(w[i])
    ensures Unhyphen(w) == w
    decreases |w|
  {
    if w != [] {
      UnhyphenWord(w[1..]);
      assert [w[0]] + w[1..] == w;
    }
  }

  /** Deleting the hyphens of joined words leaves the words run together. */
  lemma {:induction false} UnhyphenJoin(ws: seq<string>)
    requires AllWords(ws)
    ensures Unhyphen(Join(ws)) == Concat(ws)
  {
    if |ws| == 1 {
      UnhyphenWord(ws[0]);
      assert ws[0] + "" == ws[0];
    } else if |ws| > 1 {
      UnhyphenJoin(ws[1..]);
      UnhyphenAppend(ws[0] + "-", Join(ws[1..]));
      UnhyphenAppend(ws[0], "-");
      UnhyphenWord(ws[0]);
      assert Unhyphen("-") == "";
      assert ws[0] + "-" + Join(ws[1..]) == Join(ws);
    }
  }

  /** The words read from `s`, run together after the pending run, are the letters and digits of `s`. */
  lemma {:induction false} ConcatWordsFrom(s: string, cur: string)
    ensures Concat(WordsFrom(s, cur)) == cur + Alnums(s)
    decreases |s|
  {
    if s == [] {
      assert cur + "" == cur;
      if cur != [] {
        assert Concat([cur]) == cur + Concat([cur][1..]);
      }
    } else if IsAlnum(s[0]) {
      ConcatWordsFrom(s[1..], cur + [Lower(s[0])]);
      assert cur + [Lower(s[0])] + Alnums(s[1..]) == cur + Alnums(s);
    } else {
      ConcatWordsFrom(s[1..], []);
      assert Alnums(s) == Alnums(s[1..]);
      if cur != [] {
        var ws := WordsFrom(s[1..], []);
        assert ([cur] + ws)[0] == cur && ([cur] + ws)[1..] == ws;
      } else {
        assert [] + WordsFrom(s[1..], []) == WordsFrom(s[1..], []);
      }
    }
  }

  /**
   * A slug holds exactly the subject's letters and digits, lower-cased and in
   * order; everything else in it is a hyphen.
   */
  lemma NormalizeKeepsAlnums(s: string)
    ensures Unhyphen(Normalize(s)) == Alnums(s)
  {
    WordsFromAreWords(s, []);
    UnhyphenJoin(Words(s));
    ConcatWordsFrom(s, []);
    assert [] + Alnums(s) == Alnums(s);
  }

  /**
   * A run of letters and digits, then a run of other characters: the run is
   * lower-cased and the separator becomes one hyphen when letters or digits
   * follow, and vanishes when none do.
   */
  lemma NormalizeStep(u: string, sep: string, rest: string)
    requires u != [] && forall i :: 0 <= i < |u| ==> IsAlnum(u[i])
    requires sep != [] && forall i :: 0 <= i < |sep| ==> !IsAlnum(sep[i])
    ensures (exists i :: 0 <= i < |rest| && IsAlnum(rest[i])) ==>
      Normalize(u + sep + rest) == LowerAll(u) + "-" + Normalize(rest)
    ensures (forall i :: 0 <= i < |rest| ==> !IsAlnum(rest[i])) ==>
      Normalize(u + sep + rest) == LowerAll(u)
  {
    WordsStep(u, sep, rest);
    WordsFromEmpty(rest, []);
    var ws := [LowerAll(u)] + Words(rest);
    assert ws[0] == LowerAll(u) && ws[1..] == Words(rest);
  }

  /** Characters that are not letters or digits at the front leave no trace. */
  lemma NormalizeSkip(sep: string, s: string)
    requires forall i :: 0 <= i < |sep| ==> !IsAlnum(sep[i])
    ensures Normalize(sep + s) == Normalize(s)
  {
    WordsFromSkip(sep, s);
  }

  /** A subject made only of letters and digits is its own slug, lower-cased. */
  lemma NormalizeRun(u: string)
    requires forall i :: 0 <= i < |u| ==> IsAlnum(u[i])
    ensures Normalize(u) == LowerAll(u)
  {
    if u != [] {
      WordsLast(u);
    } else {
      assert LowerAll(u) == "";
    }
  }

  lemma SampleRecordWords(subject: string)
    requires subject == "Sample Record"
    ensures Words(subject) == ["sample", "record"]
  {
    var u, sep, rest := "Sample", " ", "Record";
    assert subject == u + sep + rest;
    WordsStep(u, sep, rest);
    WordsLast(rest);
    assert LowerAll(u) == "sample";
    assert LowerAll(rest) == "record";
  }

  lemma SampleRecordJoin(ws: seq<string>)
    requires ws == ["sample", "record"]
    ensures Join(ws) == "sample-record"
  {
    assert Join(ws[1..]) == "record";
  }

  /** "Sample Record" becomes "sample-record". */
  lemma NormalizeSample(subject: string)
    requires subject == "Sample Record"
    ensures Normalize(subject) == "sample-record"
  {
    SampleRecordWords(subject);
    SampleRecordJoin(Words(subject));
  }

  /** "sample record" becomes "sample-record" too: case does not matter. */
  lemma NormalizeLowerSample(subject: string)
    requires subject == "sample record"
    ensures Normalize(subject) == "sample-record"
  {
    var u, sep, rest := "sample", " ", "record";
    assert subject == u + sep + rest;
    WordsStep(u, sep, rest);
    WordsLast(rest);
    assert LowerAll(u) == "sample";
    assert LowerAll(rest) == "record";
    SampleRecordJoin(Words(subject));
  }

  /** The empty subject becomes the empty slug. */
  lemma NormalizeEmpty(subject: string)
    requires subject == ""
    ensures Normalize(subject) == ""
  {
    NormalizeBlank(subject);
  }

  /** The words of a subject made of four runs separated by single spaces. */
  lemma FourWords(a: string, b: string, c: string, d: string)
    requires a != [] && forall i :: 0 <= i < |a| ==> IsAlnum(a[i])
    requires b != [] && forall i :: 0 <= i < |b| ==> IsAlnum(b[i])
    requires c != [] && forall i :: 0 <= i < |c| ==> IsAlnum(c[i])
    requires d != [] && forall i :: 0 <= i < |d| ==> IsAlnum(d[i])
    ensures Words(a + " " + b + " " + c + " " + d) == [LowerAll(a), LowerAll(b), LowerAll(c), LowerAll(d)]
  {
    var sp := " ";
    var cd := c + sp + d;
    var bcd := b + sp + cd;
    assert a + sp + b + sp + c + sp + d == a + sp + bcd;
    WordsStep(a, sp, bcd);
    WordsStep(b, sp, cd);
    WordsStep(c, sp, d);
    WordsLast(d);
  }

  lemma FramedWords(subject: string)
    requires subject == "zcvf Sample Record zxvf"
    ensures Words(subject) == ["zcvf", "sample", "record", "zxvf"]
  {
    var a, b, c, d := "zcvf", "Sample", "Record", "zxvf";
    assert a + " " + b + " " + c + " " + d == subject;
    assert LowerAll(a) == "zcvf" && LowerAll(b) == "sample";
    assert LowerAll(c) == "record" && LowerAll(d) == "zxvf";
    FourWords(a, b, c, d);
  }

  lemma FramedJoin(ws: seq<string>)
    requires ws == ["zcvf", "sample", "record", "zxvf"]
    ensures Join(ws) == "zcvf-sample-record-zxvf"
  {
    assert Join(ws[3..]) == "zxvf";
    assert Join(ws[2..]) == "record-zxvf";
    assert Join(ws[1..]) == "sample-record-zxvf";
  }

  /** The computed subject "zcvf Sample Record zxvf" becomes "zcvf-sample-record-zxvf". */
  lemma NormalizeFramedExample(subject: string)
    requires subject == "zcvf Sample Record zxvf"
    ensures Normalize(subject) == "zcvf-sample-record-zxvf"
  {
    FramedWords(subject);
    FramedJoin(Words(subject));
  }
}
