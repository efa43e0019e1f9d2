/**
 * The text format of the baseline file: one `path<TAB>hash<LF>` line per file
 * (written at main.py:61) and the way resume mode reads it back
 * (main.py:132-136): a text-mode `readline`, `split("\t")`, `strip()`.
 */
module LineFormat {

  datatype Option<T> = None | Some(value: T)

  const TAB: char := '\t'
  const LF: char := '\n'
  const CR: char := '\r'

  /** The characters Python's `str.isspace` accepts, which `str.strip()` removes. */
  predicate IsSpace(c: char) {
    || c == ' '
    || '\t' <= c <= '\r'
    || '\U{1C}' <= c <= '\U{1F}'
    || c == '\U{85}' || c == '\U{A0}' || c == '\U{1680}'
    || '\U{2000}' <= c <= '\U{200A}'
    || c == '\U{2028}' || c == '\U{2029}' || c == '\U{202F}' || c == '\U{205F}' || c == '\U{3000}'
  }

  /** Neither end of `s` is whitespace, so `strip()` leaves it as it is. */
  predicate Clean(s: string) {
    s == [] || (!IsSpace(s[0]) && !IsSpace(s[|s| - 1]))
  }

  /** The number of times `c` occurs in `s`. */
  function Occurrences(s: string, c: char): nat {
    if s == [] then 0 else (if s[0] == c then 1 else 0) + Occurrences(s[1..], c)
  }

  /**
   * Python's `s.split(sep)` for a one-character separator: the pieces between
   * separators, so one more piece than there are separators, none of them
   * holding the separator.
   */
  function Split(s: string, sep: char): (fields: seq<string>)
    ensures |fields| == Occurrences(s, sep) + 1
    ensures forall i :: 0 <= i < |fields| ==> sep !in fields[i]
    decreases |s|
  {
    if s == [] then [[]]
    else
      var rest := Split(s[1..], sep);
      if s[0] == sep then [[]] + rest
      else [[s[0]] + rest[0]] + rest[1..]
  }

  /** The first piece is what comes before the first separator: a prefix of `s`. */
  lemma {:induction false} SplitFirstIsPrefix(s: string, sep: char)
    ensures |Split(s, sep)[0]| <= |s| && Split(s, sep)[0] == s[..|Split(s, sep)[0]|]
    decreases |s|
  {
    if s != [] && s[0] != sep {
      SplitFirstIsPrefix(s[1..], sep);
    }
  }

  /** Python's `sep.join(fields)`. */
  function Join(fields: seq<string>, sep: char): string
    requires |fields| >= 1
  {
    if |fields| == 1 then fields[0] else fields[0] + [sep] + Join(fields[1..], sep)
  }

  /** Splitting loses nothing: joining the pieces gives the string back. */
  lemma {:induction false} JoinSplit(s: string, sep: char)
    ensures Join(Split(s, sep), sep) == s
    decreases |s|
  {
    if s != [] {
      JoinSplit(s[1..], sep);
      var rest := Split(s[1..], sep);
      if s[0] == sep {
        assert Split(s, sep)[1..] == rest;
      } else {
        var fields := Split(s, sep);
        assert fields[0] == [s[0]] + rest[0];
        if |rest| == 1 {
          assert fields == [[s[0]] + rest[0]];
        } else {
          assert fields[1..] == rest[1..];
          assert Join(rest, sep) == rest[0] + [sep] + Join(rest[1..], sep);
        }
      }
    }
  }

  /** A string with no separator is a single piece. */
  lemma {:induction false} SplitWithoutSeparator(s: string, sep: char)
    requires sep !in s
    ensures Split(s, sep) == [s]
    decreases |s|
  {
    if s != [] {
      SplitWithoutSeparator(s[1..], sep);
      assert [s[0]] + s[1..] == s;
    }
  }

  /** A separator after a separator-free prefix ends the first piece. */
  lemma {:induction false} SplitAtFirstSeparator(a: string, sep: char, b: string)
    requires sep !in a
    ensures Split(a + [sep] + b, sep) == [a] + Split(b, sep)
    decreases |a|
  {
    if a == [] {
      assert a + [sep] + b == [sep] + b;
      assert ([sep] + b)[1..] == b;
    } else {
      SplitAtFirstSeparator(a[1..], sep, b);
      assert (a + [sep] + b)[1..] == a[1..] + [sep] + b;
      assert [a[0]] + a[1..] == a;
    }
  }

  /** `s.lstrip()`: `s` once its leading whitespace is removed. */
  function StripLeading(s: string): (r: string)
    ensures |r| <= |s|
  {
    if s != [] && IsSpace(s[0]) then StripLeading(s[1..]) else s
  }

  /** `s.lstrip()` is the suffix of `s` after its leading whitespace: all of it, and nothing more. */
  lemma {:induction false} StripLeadingShape(s: string)
    ensures var r := StripLeading(s);
      && r == s[|s| - |r|..]
      && (r == [] || !IsSpace(r[0]))
      && forall i :: 0 <= i < |s| - |r| ==> IsSpace(s[i])
  {
    if s != [] && IsSpace(s[0]) {
      StripLeadingShape(s[1..]);
      assert forall i :: 1 <= i < |s| ==> s[i] == s[1..][i - 1];
    }
  }

  /** `s.rstrip()`: `s` once its trailing whitespace is removed. */
  function StripTrailing(s: string): (r: string)
    ensures |r| <= |s|
  {
    if s != [] && IsSpace(s[|s| - 1]) then StripTrailing(s[..|s| - 1]) else s
  }

  /** `s.rstrip()` is the prefix of `s` before its trailing whitespace: all of it, and nothing more. */
  lemma {:induction false} StripTrailingShape(s: string)
    ensures var r := StripTrailing(s);
      && r == s[..|r|]
      && (r == [] || !IsSpace(r[|r| - 1]))
      && forall i :: |r| <= i < |s| ==> IsSpace(s[i])
  {
    if s != [] && IsSpace(s[|s| - 1]) {
      StripTrailingShape(s[..|s| - 1]);
    }
  }

  /** `s.strip()`: no longer than `s`. */
  function Strip(s: string): (r: string)
    ensures |r| <= |s|
  {
    StripTrailing(StripLeading(s))
  }

  /** `s.strip()` leaves no whitespace at either end. */
  lemma StripIsClean(s: string)
    ensures Clean(Strip(s))
  {
    var t := StripLeading(s);
    StripLeadingShape(s);
    StripTrailingShape(t);
    var r := StripTrailing(t);
    if r != [] {
      assert r[0] == t[0];
    }
  }

  /** Everything in `s` outside `s[i..j]` is whitespace. */
  ghost predicate SpaceOutside(s: string, i: int, j: int)
    requires 0 <= i <= j <= |s|
  {
    forall k :: 0 <= k < i || j <= k < |s| ==> IsSpace(s[k])
  }

  /**
   * `strip()` removes whitespace at the ends and nothing else: what is left
   * is a slice of `s`, and everything outside it is whitespace.
   */
  lemma StripIsSlice(s: string)
    ensures exists i, j :: 0 <= i <= j <= |s| && Strip(s) == s[i..j] && SpaceOutside(s, i, j)
  {
    var t := StripLeading(s);
    var i := |s| - |t|;
    StripLeadingShape(s);
    StripTrailingShape(t);
    SliceOfSuffix(s, i, StripTrailing(t));
  }

  /** A prefix `r` of `s[i..]` with whitespace before and after it is a slice of `s`. */
  lemma SliceOfSuffix(s: string, i: nat, r: string)
    requires i <= |s| && |r| <= |s| - i && r == s[i..][..|r|]
    requires forall k :: 0 <= k < i ==> IsSpace(s[k])
    requires forall k :: |r| <= k < |s| - i ==> IsSpace(s[i..][k])
    ensures r == s[i..i + |r|] && SpaceOutside(s, i, i + |r|)
  {
    forall k | i + |r| <= k < |s|
      ensures IsSpace(s[k])
    {
      assert s[k] == s[i..][k - i];
    }
  }

  /** `strip()` leaves a string with clean ends as it is. */
  lemma StripClean(s: string)
    requires Clean(s)
    ensures Strip(s) == s
  {
  }

  /** `strip()` of a clean field followed by the line's newline gives the field back. */
  lemma StripNewline(s: string)
    requires Clean(s)
    ensures Strip(s + [LF]) == s
  {
    var t := s + [LF];
    if s == [] {
      assert StripLeading(t) == StripLeading(t[1..]);
      assert t[1..] == [];
    } else {
      assert t[0] == s[0] && !IsSpace(t[0]);
      assert StripLeading(t) == t;
      assert t[..|t| - 1] == s && IsSpace(t[|t| - 1]);
      assert StripTrailing(t) == StripTrailing(s);
      assert StripTrailing(s) == s;
    }
  }

  /** The line main.py:61 appends to the baseline file for one entry. */
  function FormatLine(path: string, hash: string): (line: string)
    ensures |line| == |path| + |hash| + 2 && line[|line| - 1] == LF
  {
    path + [TAB] + hash + [LF]
  }

  /**
   * How resume mode reads one stored line (main.py:134-136): the line is
   * accepted only when it splits on TAB into exactly two fields, that is when
   * it holds exactly one TAB; both fields are then stripped.
   */
  function ParseLine(line: string): (r: Option<(string, string)>)
    ensures r.Some? <==> Occurrences(line, TAB) == 1
  {
    var fields := Split(line, TAB);
    if |fields| == 2 then Some((Strip(fields[0]), Strip(fields[1]))) else None
  }

  /** Both fields of an accepted line have no whitespace at either end. */
  lemma ParsedFieldsAreClean(line: string)
    ensures ParseLine(line).Some? ==> Clean(ParseLine(line).value.0) && Clean(ParseLine(line).value.1)
  {
    var fields := Split(line, TAB);
    if |fields| == 2 {
      StripIsClean(fields[0]);
      StripIsClean(fields[1]);
    }
  }

  /**
   * Parsing inverts the line format: a path and a hash that hold no TAB and
   * have clean ends are read back unchanged from the line written for them.
   */
  lemma {:induction false} ParseFormatRoundTrip(path: string, hash: string)
    requires TAB !in path && TAB !in hash
    requires Clean(path) && Clean(hash)
    ensures ParseLine(FormatLine(path, hash)) == Some((path, hash))
  {
    assert FormatLine(path, hash) == path + [TAB] + (hash + [LF]);
    SplitAtFirstSeparator(path, TAB, hash + [LF]);
    SplitWithoutSeparator(hash + [LF], TAB);
    StripClean(path);
    StripNewline(hash);
  }

  /** The first line of `text`: up to and including the first LF. */
  function FirstLine(text: string): (line: string)
    ensures |line| <= |text|
  {
    if text == [] then []
    else if text[0] == LF then [LF]
    else [text[0]] + FirstLine(text[1..])
  }

  /**
   * The first line is a prefix of the text: up to and including the first
   * LF when there is one, and the whole text otherwise.
   */
  lemma {:induction false} FirstLineShape(text: string)
    ensures var line := FirstLine(text);
      && line == text[..|line|]
      && (LF in text ==> line != [] && line[|line| - 1] == LF && LF !in line[..|line| - 1])
      && (LF !in text ==> line == text)
  {
    if text != [] && text[0] != LF {
      FirstLineShape(text[1..]);
      assert text == [text[0]] + text[1..];
    }
  }

  /**
   * What a file opened in text mode delivers for the bytes `s` (universal
   * newlines): CR LF and a lone CR both read as LF.
   */
  function TranslateNewlines(s: string): (r: string)
    ensures |r| <= |s|
    decreases |s|
  {
    if s == [] then []
    else if s[0] == CR then [LF] + TranslateNewlines(if |s| > 1 && s[1] == LF then s[2..] else s[1..])
    else [s[0]] + TranslateNewlines(s[1..])
  }

  /** Text without a CR reads as it is written, whatever follows it. */
  lemma {:induction false} TranslatePlain(a: string, b: string)
    requires CR !in a
    ensures TranslateNewlines(a + b) == a + TranslateNewlines(b)
    decreases |a|
  {
    if a != [] {
      TranslatePlain(a[1..], b);
      assert a[0] in a;
      assert (a + b)[0] == a[0] != CR;
      assert (a + b)[1..] == a[1..] + b;
      assert TranslateNewlines(a + b) == [a[0]] + TranslateNewlines(a[1..] + b);
      assert [a[0]] + a[1..] == a;
    } else {
      assert a + b == b;
    }
  }

  /** Text mode never delivers a CR. */
  lemma {:induction false} TranslatedHasNoCR(s: string)
    ensures CR !in TranslateNewlines(s)
    decreases |s|
  {
    if s != [] {
      var rest := if s[0] == CR && |s| > 1 && s[1] == LF then s[2..] else s[1..];
      TranslatedHasNoCR(rest);
      if s[0] != CR {
        TranslatedHasNoCR(s[1..]);
      }
    }
  }

  /**
   * `f.readline()` on a file opened in text mode that holds `text`
   * (main.py:132-133): the first line once CR LF and CR are read as LF.
   */
  function ReadLine(text: string): (line: string)
    ensures |line| <= |text|
  {
    FirstLine(TranslateNewlines(text))
  }

  /** `readline` stops at the first LF: the rest of the file is not looked at. */
  lemma {:induction false} FirstLineOf(a: string, b: string)
    requires LF !in a
    ensures FirstLine(a + [LF] + b) == a + [LF]
    decreases |a|
  {
    var text := a + [LF] + b;
    if a == [] {
      assert text == [LF] + b;
    } else {
      FirstLineOf(a[1..], b);
      assert text[0] == a[0] && a[0] != LF;
      assert text[1..] == a[1..] + [LF] + b;
      assert FirstLine(text) == [a[0]] + FirstLine(text[1..]);
      assert [a[0]] + (a[1..] + [LF]) == a + [LF];
    }
  }

  /** Text mode reads a line that holds no CR up to its LF, whatever follows. */
  lemma ReadLineAtNewline(a: string, rest: string)
    requires CR !in a && LF !in a
    ensures ReadLine(a + [LF] + rest) == a + [LF]
  {
    var after := TranslateNewlines(rest);
    calc {
      ReadLine(a + [LF] + rest);
    == { assert a + [LF] + rest == a + ([LF] + rest); }
      FirstLine(TranslateNewlines(a + ([LF] + rest)));
    == { TranslatePlain(a, [LF] + rest); }
      FirstLine(a + TranslateNewlines([LF] + rest));
    == { assert ([LF] + rest)[1..] == rest; }
      FirstLine(a + ([LF] + after));
    == { assert a + ([LF] + after) == a + [LF] + after; FirstLineOf(a, after); }
      a + [LF];
    }
  }

  /** A CR reads as LF, and a LF right after it is dropped with it. */
  lemma TranslateAtCarriageReturn(rest: string)
    ensures TranslateNewlines([CR] + rest)
      == [LF] + TranslateNewlines(if rest != [] && rest[0] == LF then rest[1..] else rest)
  {
    assert ([CR] + rest)[1..] == rest;
    if rest != [] && rest[0] == LF {
      assert ([CR] + rest)[2..] == rest[1..];
    }
  }

  /** Text mode also ends a line at a CR, which it reads as LF. */
  lemma ReadLineAtCarriageReturn(a: string, rest: string)
    requires CR !in a && LF !in a
    ensures ReadLine(a + [CR] + rest) == a + [LF]
  {
    var after := TranslateNewlines(if rest != [] && rest[0] == LF then rest[1..] else rest);
    calc {
      ReadLine(a + [CR] + rest);
    == { assert a + [CR] + rest == a + ([CR] + rest); }
      FirstLine(TranslateNewlines(a + ([CR] + rest)));
    == { TranslatePlain(a, [CR] + rest); }
      FirstLine(a + TranslateNewlines([CR] + rest));
    == { TranslateAtCarriageReturn(rest); }
      FirstLine(a + ([LF] + after));
    == { assert a + ([LF] + after) == a + [LF] + after; FirstLineOf(a, after); }
      a + [LF];
    }
  }

  /** The text of a file written as a sequence of appended chunks. */
  function Concat(chunks: seq<string>): (text: string)
    ensures |chunks| > 0 ==> |chunks[0]| <= |text| && text[..|chunks[0]|] == chunks[0]
  {
    if chunks == [] then [] else chunks[0] + Concat(chunks[1..])
  }
}
