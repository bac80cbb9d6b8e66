/** The character-class string functions of gitopenlib/utils/nlp.py:
    `remove_punc` (the substitution of `[^a-zA-Z0-9一-龥]`),
    `is_all_chinese`, `is_contains_chinese` and `english_word_cut`. */
module Nlp {
  import opened Seqs
  import opened PyStr

  /** An ASCII letter or digit. */
  predicate IsAsciiAlnum(c: char) {
    ('a' <= c <= 'z') || ('A' <= c <= 'Z') || ('0' <= c <= '9')
  }

  /** A character of the block U+4E00..U+9FA5 the library calls Chinese. */
  predicate IsChinese(c: char) {
    '\U{4E00}' <= c <= '\U{9FA5}'
  }

  /** A character the pattern does not match, so `remove_punc` keeps it. */
  predicate IsKept(c: char) {
    IsAsciiAlnum(c) || IsChinese(c)
  }

  /** `remove_punc(text, repl)`: every character outside the kept classes
      becomes `repl`. */
  function RemovePunc(text: string, repl: string): string {
    if |text| == 0 then ""
    else (if IsKept(text[0]) then [text[0]] else repl) + RemovePunc(text[1..], repl)
  }

  /** With the default `repl = ""` the punctuation is deleted: what is left
      are the kept characters of `text`, in order, and a second pass
      changes nothing. */
  lemma {:induction false} RemovePuncDeletes(text: string)
    ensures RemovePunc(text, "") == Filter(text, IsKept)
  {
    if |text| > 0 {
      RemovePuncDeletes(text[1..]);
    }
  }

  lemma RemovePuncSpec(text: string)
    ensures forall i :: 0 <= i < |RemovePunc(text, "")| ==> IsKept(RemovePunc(text, "")[i])
    ensures IsSubseq(RemovePunc(text, ""), text)
    ensures RemovePunc(RemovePunc(text, ""), "") == RemovePunc(text, "")
  {
    RemovePuncDeletes(text);
    RemovePuncDeletes(RemovePunc(text, ""));
    FilterSubseq(text, IsKept);
    FilterIdempotent(text, IsKept);
  }

  /** A one-character `repl` keeps the length: each kept character stays in
      its place and every other one becomes `repl`. */
  lemma {:induction false} RemovePuncReplaces(text: string, repl: string)
    requires |repl| == 1
    ensures |RemovePunc(text, repl)| == |text|
    ensures forall i :: 0 <= i < |text| ==>
      RemovePunc(text, repl)[i] == if IsKept(text[i]) then text[i] else repl[0]
  {
    if |text| > 0 {
      RemovePuncReplaces(text[1..], repl);
      var r := RemovePunc(text, repl);
      forall i | 0 < i < |text|
        ensures r[i] == if IsKept(text[i]) then text[i] else repl[0]
      {
        assert r[i] == RemovePunc(text[1..], repl)[i - 1];
      }
    }
  }

  /** The loop of `is_all_chinese`: false at the first character that is
      not Chinese. */
  function AllChinese(s: string): bool {
    if |s| == 0 then true else if !IsChinese(s[0]) then false else AllChinese(s[1..])
  }

  /** The loop of `is_contains_chinese`: true at the first Chinese
      character. */
  function AnyChinese(s: string): bool {
    if |s| == 0 then false else if IsChinese(s[0]) then true else AnyChinese(s[1..])
  }

  /** `is_all_chinese(text)`. */
  function IsAllChinese(text: string): bool {
    AllChinese(RemovePunc(text, ""))
  }

  /** `is_contains_chinese(text)`. */
  function IsContainsChinese(text: string): bool {
    AnyChinese(RemovePunc(text, ""))
  }

  lemma {:induction false} AllChineseSpec(s: string)
    ensures AllChinese(s) <==> forall i :: 0 <= i < |s| ==> IsChinese(s[i])
  {
    if |s| > 0 {
      AllChineseSpec(s[1..]);
      assert forall i :: 1 <= i < |s| ==> s[i] == s[1..][i - 1];
    }
  }

  lemma {:induction false} AnyChineseSpec(s: string)
    ensures AnyChinese(s) <==> exists i :: 0 <= i < |s| && IsChinese(s[i])
  {
    if |s| > 0 {
      AnyChineseSpec(s[1..]);
      assert forall i :: 1 <= i < |s| ==> s[i] == s[1..][i - 1];
    }
  }

  /** `is_all_chinese` holds exactly when the text has no ASCII letter or
      digit; an empty or all-punctuation text passes. */
  lemma IsAllChineseSpec(text: string)
    ensures IsAllChinese(text) <==> forall i :: 0 <= i < |text| ==> !IsAsciiAlnum(text[i])
  {
    var r := RemovePunc(text, "");
    RemovePuncDeletes(text);
    AllChineseSpec(r);
    if IsAllChinese(text) {
      forall i | 0 <= i < |text| ensures !IsAsciiAlnum(text[i]) {
        FilterMembers(text, IsKept, text[i]);
      }
    } else {
      var j :| 0 <= j < |r| && !IsChinese(r[j]);
      FilterMembers(text, IsKept, r[j]);
      var i :| 0 <= i < |text| && text[i] == r[j];
      assert IsAsciiAlnum(text[i]);
    }
  }

  /** `is_contains_chinese` holds exactly when some character of the text
      is Chinese. */
  lemma IsContainsChineseSpec(text: string)
    ensures IsContainsChinese(text) <==> exists i :: 0 <= i < |text| && IsChinese(text[i])
  {
    var r := RemovePunc(text, "");
    RemovePuncDeletes(text);
    AnyChineseSpec(r);
    if exists i :: 0 <= i < |text| && IsChinese(text[i]) {
      var i :| 0 <= i < |text| && IsChinese(text[i]);
      FilterMembers(text, IsKept, text[i]);
      var j :| 0 <= j < |r| && r[j] == text[i];
    }
    if IsContainsChinese(text) {
      var j :| 0 <= j < |r| && IsChinese(r[j]);
      FilterMembers(text, IsKept, r[j]);
      var i :| 0 <= i < |text| && text[i] == r[j];
    }
  }

  /** `english_word_cut(text, stop_words, remove_punc)`: the words of the
      text, punctuation removed first or not, less the stop words. */
  function EnglishWordCut(text: string, stopWords: seq<string>, removePunc: bool): seq<string> {
    var t := if removePunc then RemovePunc(text, "") else text;
    Filter(Words(t), w => w !in stopWords)
  }

  /** No stop word comes out, every word is non-empty and free of white
      space, and a word comes out exactly when it is a word of the text and
      no stop word. */
  lemma EnglishWordCutSpec(text: string, stopWords: seq<string>, removePunc: bool)
    ensures var r := EnglishWordCut(text, stopWords, removePunc);
      forall i :: 0 <= i < |r| ==> r[i] !in stopWords && |r[i]| > 0 && NoSpace(r[i])
    ensures var t := if removePunc then RemovePunc(text, "") else text;
      forall w :: w in EnglishWordCut(text, stopWords, removePunc) <==> w in Words(t) && w !in stopWords
  {
    var t := if removePunc then RemovePunc(text, "") else text;
    var keep := (w: string) => w !in stopWords;
    var r := Filter(Words(t), keep);
    forall i | 0 <= i < |r| ensures |r[i]| > 0 && NoSpace(r[i]) {
      FilterMembers(Words(t), keep, r[i]);
    }
    forall w ensures w in r <==> w in Words(t) && keep(w) {
      FilterMembers(Words(t), keep, w);
    }
  }

  /** With punctuation removed the spaces are gone too, so at most one
      word, the whole remaining text, comes out. */
  lemma EnglishWordCutOneWord(text: string, stopWords: seq<string>)
    ensures |EnglishWordCut(text, stopWords, true)| <= 1
    ensures var t := RemovePunc(text, "");
      EnglishWordCut(text, stopWords, true) == if |t| == 0 || t in stopWords then [] else [t]
  {
    var t := RemovePunc(text, "");
    RemovePuncSpec(text);
    assert NoSpace(t);
    WordsNoSpace(t);
  }

  /** What `english_word_cut` evidently means by `remove_punc`, as
      `chinese_word_cut` does it word by word: split on white space first,
      then remove the punctuation of each word and drop the words left
      empty. */
  function CleanWords(ws: seq<string>): (r: seq<string>)
    ensures forall i :: 0 <= i < |r| ==> |r[i]| > 0 && forall j :: 0 <= j < |r[i]| ==> IsKept(r[i][j])
  {
    if |ws| == 0 then []
    else
      var w := RemovePunc(ws[0], "");
      RemovePuncSpec(ws[0]);
      (if |w| > 0 then [w] else []) + CleanWords(ws[1..])
  }

  function EnglishWordCutIntended(text: string, stopWords: seq<string>, removePunc: bool): seq<string> {
    var ws := if removePunc then CleanWords(Words(text)) else Words(text);
    Filter(ws, w => w !in stopWords)
  }

  /** The intended cut gives non-empty words, free of punctuation when
      `remove_punc` is set, and no stop word; on a text without
      punctuation it splits at the white space exactly as plain `split()`
      does. */
  lemma EnglishWordCutIntendedSpec(text: string, stopWords: seq<string>)
    ensures var r := EnglishWordCutIntended(text, stopWords, true);
      forall i :: 0 <= i < |r| ==> r[i] !in stopWords && |r[i]| > 0 && forall j :: 0 <= j < |r[i]| ==> IsKept(r[i][j])
    ensures (forall j :: 0 <= j < |text| ==> IsKept(text[j]) || IsSpace(text[j])) ==>
      EnglishWordCutIntended(text, stopWords, true) == EnglishWordCut(text, stopWords, false)
  {
    var keep := (w: string) => w !in stopWords;
    var ws := CleanWords(Words(text));
    var r := Filter(ws, keep);
    forall i | 0 <= i < |r| ensures r[i] !in stopWords && |r[i]| > 0 && forall j :: 0 <= j < |r[i]| ==> IsKept(r[i][j]) {
      FilterMembers(ws, keep, r[i]);
    }
    if forall j :: 0 <= j < |text| ==> IsKept(text[j]) || IsSpace(text[j]) {
      WordsKept(text);
      CleanKeptWords(Words(text));
    }
  }

  /** The words of a text without punctuation hold only kept characters. */
  lemma {:induction false} WordsKept(s: string)
    requires forall j :: 0 <= j < |s| ==> IsKept(s[j]) || IsSpace(s[j])
    ensures forall i :: 0 <= i < |Words(s)| ==> forall j :: 0 <= j < |Words(s)[i]| ==> IsKept(Words(s)[i][j])
    decreases |s|
  {
    if |s| > 0 {
      if IsSpace(s[0]) {
        WordsKept(s[1..]);
      } else {
        var n := WordLength(s);
        WordsKept(s[n..]);
        assert Words(s) == [s[..n]] + Words(s[n..]);
        assert forall j :: 0 <= j < n ==> s[..n][j] == s[j];
      }
    }
  }

  /** Words that are already clean are kept as they are. */
  lemma {:induction false} CleanKeptWords(ws: seq<string>)
    requires forall i :: 0 <= i < |ws| ==> |ws[i]| > 0 && forall j :: 0 <= j < |ws[i]| ==> IsKept(ws[i][j])
    ensures CleanWords(ws) == ws
  {
    if |ws| > 0 {
      CleanKeptWords(ws[1..]);
      RemovePuncDeletes(ws[0]);
      FilterAllKept(ws[0], IsKept);
      assert ws == [ws[0]] + ws[1..];
    }
  }

  /** As written, `english_word_cut("a b")` gives ["ab"]; the intended cut
      gives ["a", "b"]. */
  lemma EnglishWordCutCounterexample()
    ensures EnglishWordCut("a b", [], true) == ["ab"]
    ensures EnglishWordCutIntended("a b", [], true) == ["a", "b"]
  {
    RemovePuncAB();
    EnglishWordCutOneWord("a b", []);
    WordsAB();
    var ws := ["a", "b"];
    assert forall i :: 0 <= i < |ws| ==> |ws[i]| > 0 && forall j :: 0 <= j < |ws[i]| ==> IsKept(ws[i][j]);
    CleanKeptWords(ws);
  }

  lemma RemovePuncAB()
    ensures RemovePunc("a b", "") == "ab"
  {
    var t := "a b";
    assert t[1..] == " b" && t[1..][1..] == "b" && t[1..][1..][1..] == "";
  }

  lemma WordsAB()
    ensures Words("a b") == ["a", "b"]
  {
    var t := "a b";
    assert !IsSpace(t[0]) && IsSpace(t[1]);
    assert WordLength(t) == 1;
    assert t[1..] == " b" && t[2..] == "b" && t[..1] == "a";
    assert NoSpace("b");
    WordsNoSpace("b");
    assert Words(t[1..]) == Words(t[2..]);
  }
}
