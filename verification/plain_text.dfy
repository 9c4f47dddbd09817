/**
 The plain-text derivations an entry's content goes through when it is saved
 (backend/controllers/entryController.js): `stripHtml` turns the rich content
 into searchable text, and the word count is the number of non-whitespace
 characters of that text. Whitespace is JavaScript's `\s` class, which is also
 what `String.prototype.trim` removes.
 */
module PlainText {

  /** JavaScript's `\s`: ASCII tab, line feed, vertical tab, form feed, carriage
      return and space, plus the Unicode space separators, NBSP, the line and
      paragraph separators and the byte-order mark. */
  predicate IsSpace(c: char) {
    var n := c as int;
    (9 <= n <= 13) || n == 0x20 || n == 0xA0 || n == 0x1680
    || (0x2000 <= n <= 0x200A) || n == 0x2028 || n == 0x2029
    || n == 0x202F || n == 0x205F || n == 0x3000 || n == 0xFEFF
  }

  /** No `<` is followed, anywhere later, by a `>`: the text holds no complete tag. */
  ghost predicate NoTag(s: string) {
    forall i, j :: 0 <= i < j < |s| && s[i] == '<' ==> s[j] != '>'
  }

  ghost predicate NoAdjacentSpaces(s: string) {
    forall i :: 0 <= i < |s| - 1 ==> !(IsSpace(s[i]) && IsSpace(s[i + 1]))
  }

  /** Every whitespace character left is a plain space. */
  ghost predicate OnlyPlainSpaces(s: string) {
    forall i :: 0 <= i < |s| && IsSpace(s[i]) ==> s[i] == ' '
  }

  ghost predicate Trimmed(s: string) {
    |s| > 0 ==> !IsSpace(s[0]) && !IsSpace(s[|s| - 1])
  }

  /** The position of the first `c` in `s` at or after `from`. */
  function IndexOf(s: string, c: char, from: nat): (k: nat)
    requires from <= |s| && c in s[from..]
    ensures from <= k < |s| && s[k] == c
    ensures forall j :: from <= j < k ==> s[j] != c
    decreases |s| - from
  {
    if s[from] == c then from else IndexOf(s, c, from + 1)
  }

  /** `s.replace(/<[^>]*>/g, " ")`: each `<` that has a `>` after it starts a
      tag running to the first such `>`, and the tag becomes one space; a `<`
      with no `>` after it stays. */
  function ReplaceTags(s: string): (r: string)
    ensures |r| <= |s|
    decreases |s|
  {
    if |s| == 0 then []
    else if s[0] == '<' && '>' in s[1..] then [' '] + ReplaceTags(s[IndexOf(s, '>', 1) + 1..])
    else [s[0]] + ReplaceTags(s[1..])
  }

  /** After the replacement no complete tag is left. */
  lemma {:induction false} ReplaceTagsLeavesNoTag(s: string)
    ensures NoTag(ReplaceTags(s))
    decreases |s|
  {
    if |s| > 0 {
      if s[0] == '<' && '>' in s[1..] {
        var rest := s[IndexOf(s, '>', 1) + 1..];
        ReplaceTagsLeavesNoTag(rest);
        NoTagCons(' ', ReplaceTags(rest));
      } else {
        ReplaceTagsLeavesNoTag(s[1..]);
        if s[0] == '<' {
          NoCloseUnchanged(s[1..]);
        }
        NoTagCons(s[0], ReplaceTags(s[1..]));
      }
    }
  }

  lemma NoTagCons(c: char, t: string)
    requires NoTag(t)
    requires c == '<' ==> '>' !in t
    ensures NoTag([c] + t)
  {
    var s := [c] + t;
    forall i, j | 0 <= i < j < |s| && s[i] == '<'
      ensures s[j] != '>'
    {
      if i > 0 {
        assert t[i - 1] == '<' && s[j] == t[j - 1];
      } else {
        assert s[j] == t[j - 1];
      }
    }
  }

  /** Text without a `>` contains no tag, so the tag replacement leaves it alone. */
  lemma {:induction false} NoCloseUnchanged(s: string)
    requires '>' !in s
    ensures ReplaceTags(s) == s
    decreases |s|
  {
    if |s| > 0 {
      assert '>' !in s[1..] by {
        forall j | 0 <= j < |s| - 1
          ensures s[1..][j] != '>'
        {
          assert s[1..][j] == s[j + 1];
        }
      }
      NoCloseUnchanged(s[1..]);
    }
  }

  /** The suffix of `s` after its leading whitespace. */
  function DropSpaces(s: string): (r: string)
    ensures |r| <= |s| && r == s[|s| - |r|..]
    ensures |r| > 0 ==> !IsSpace(r[0])
    ensures forall i :: 0 <= i < |s| - |r| ==> IsSpace(s[i])
  {
    if |s| > 0 && IsSpace(s[0]) then DropSpaces(s[1..]) else s
  }

  /** `s.replace(/\s+/g, " ")`: every maximal whitespace run becomes one space. */
  function Collapse(s: string): (r: string)
    ensures |r| <= |s|
    ensures |r| > 0 && |s| > 0 ==> (IsSpace(r[0]) <==> IsSpace(s[0]))
    decreases |s|
  {
    if |s| == 0 then []
    else if IsSpace(s[0]) then [' '] + Collapse(DropSpaces(s))
    else [s[0]] + Collapse(s[1..])
  }

  /** The trailing-whitespace counterpart of `DropSpaces`. */
  function DropTrailingSpaces(s: string): (r: string)
    ensures |r| <= |s| && r == s[..|r|]
    ensures |r| > 0 ==> !IsSpace(r[|r| - 1])
  {
    if |s| > 0 && IsSpace(s[|s| - 1]) then DropTrailingSpaces(s[..|s| - 1]) else s
  }

  /** `String.prototype.trim`. */
  function Trim(s: string): (r: string)
    ensures Trimmed(r)
    ensures exists i, j :: 0 <= i <= j <= |s| && r == s[i..j]
  {
    var t := DropSpaces(s);
    var r := DropTrailingSpaces(t);
    assert r == s[|s| - |t|..|s| - |t| + |r|];
    r
  }

  /** `stripHtml` of entryController.js: tags become spaces, whitespace runs
      collapse to one space, and the ends are trimmed. */
  function StripHtml(html: string): (r: string)
    ensures Trimmed(r)
    ensures NoAdjacentSpaces(r)
    ensures OnlyPlainSpaces(r)
    ensures NoTag(r)
    ensures |r| <= |html|
  {
    var replaced := ReplaceTags(html);
    var collapsed := Collapse(replaced);
    ReplaceTagsLeavesNoTag(html);
    CollapseShape(replaced);
    CollapseKeepsNoTag(replaced);
    var r := Trim(collapsed);
    var i, j :| 0 <= i <= j <= |collapsed| && r == collapsed[i..j];
    SliceKeepsShape(collapsed, i, j);
    r
  }

  /** `text.replace(/\s+/g, "")`: the text with all whitespace removed. */
  function RemoveSpaces(s: string): (r: string)
    ensures |r| <= |s|
    ensures forall i :: 0 <= i < |r| ==> !IsSpace(r[i])
  {
    if |s| == 0 then []
    else if IsSpace(s[0]) then RemoveSpaces(s[1..])
    else [s[0]] + RemoveSpaces(s[1..])
  }

  /** The UTF-16 code units of one character: two above U+FFFF (a surrogate
      pair), one otherwise. */
  function CodeUnits(c: char): (n: nat)
    ensures n == 1 || n == 2
    ensures n == 2 <==> c as int >= 0x10000
  {
    if c as int >= 0x10000 then 2 else 1
  }

  /** JavaScript's `s.length`: the number of UTF-16 code units of `s`. */
  function JsLength(s: string): (n: nat)
    ensures |s| <= n <= 2 * |s|
    ensures n == |s| <==> forall i :: 0 <= i < |s| ==> s[i] as int < 0x10000
    decreases |s|
  {
    if |s| == 0 then 0
    else
      var n := CodeUnits(s[0]) + JsLength(s[1..]);
      assert forall i :: 1 <= i < |s| ==> s[i] == s[1..][i - 1];
      n
  }

  /** The UTF-16 code units of the non-whitespace characters of `s`, counted
      one character at a time. */
  function CountNonSpace(s: string): nat {
    if |s| == 0 then 0 else (if IsSpace(s[0]) then 0 else CodeUnits(s[0])) + CountNonSpace(s[1..])
  }

  /** The word count stored with an entry: `contentText.replace(/\s+/g, "").length`,
      which counts UTF-16 code units, so a character above U+FFFF counts twice. */
  function WordCount(text: string): (n: nat)
    ensures n <= JsLength(text)
    ensures n == CountNonSpace(text)
    ensures n == JsLength(text) <==> forall i :: 0 <= i < |text| ==> !IsSpace(text[i])
    ensures |RemoveSpaces(text)| <= n <= 2 * |RemoveSpaces(text)|
  {
    RemoveSpacesCounts(text);
    JsLength(RemoveSpaces(text))
  }

  lemma {:induction false} RemoveSpacesCounts(s: string)
    ensures JsLength(RemoveSpaces(s)) == CountNonSpace(s)
    ensures CountNonSpace(s) <= JsLength(s)
    ensures CountNonSpace(s) == JsLength(s) <==> forall i :: 0 <= i < |s| ==> !IsSpace(s[i])
    decreases |s|
  {
    if |s| > 0 {
      RemoveSpacesCounts(s[1..]);
      assert forall i :: 1 <= i < |s| ==> s[i] == s[1..][i - 1];
      if !IsSpace(s[0]) {
        var r := [s[0]] + RemoveSpaces(s[1..]);
        assert r[0] == s[0] && r[1..] == RemoveSpaces(s[1..]);
      }
    }
  }

  /** A character outside the Basic Multilingual Plane, such as an emoji, is
      never whitespace and adds two to the word count. */
  lemma WordCountOfAstral(text: string, c: char)
    requires c as int >= 0x10000
    ensures WordCount(text + [c]) == WordCount(text) + 2
  {
    RemoveSpacesAppend(text, [c]);
    assert RemoveSpaces([c]) == [c] by {
      assert [c][1..] == [];
    }
    JsLengthAppend(RemoveSpaces(text), [c]);
  }

  lemma {:induction false} JsLengthAppend(a: string, b: string)
    ensures JsLength(a + b) == JsLength(a) + JsLength(b)
    decreases |a|
  {
    if |a| > 0 {
      JsLengthAppend(a[1..], b);
      assert (a + b)[0] == a[0] && (a + b)[1..] == a[1..] + b;
    } else {
      assert a + b == b;
    }
  }

  // ---- Shape of the collapsed text ----

  lemma {:induction false} CollapseShape(s: string)
    ensures NoAdjacentSpaces(Collapse(s))
    ensures OnlyPlainSpaces(Collapse(s))
    decreases |s|
  {
    if |s| > 0 {
      var r := Collapse(s);
      if IsSpace(s[0]) {
        var t := DropSpaces(s);
        CollapseShape(t);
        assert r == [' '] + Collapse(t);
      } else {
        CollapseShape(s[1..]);
        assert r == [s[0]] + Collapse(s[1..]);
        if |r| > 1 {
          assert IsSpace(r[1]) ==> IsSpace(s[1..][0]);
        }
      }
    }
  }

  /** A non-space character occurs in the collapsed text exactly when it occurs in the text. */
  lemma {:induction false} CollapseKeepsChars(s: string, c: char)
    requires !IsSpace(c)
    ensures c in Collapse(s) <==> c in s
    decreases |s|
  {
    if |s| > 0 {
      if IsSpace(s[0]) {
        var t := DropSpaces(s);
        CollapseKeepsChars(t, c);
        assert c in s <==> c in t by {
          if c in s {
            var k :| 0 <= k < |s| && s[k] == c;
            assert k >= |s| - |t|;
            assert t[k - (|s| - |t|)] == c;
          }
        }
      } else {
        CollapseKeepsChars(s[1..], c);
        assert s == [s[0]] + s[1..];
      }
    }
  }

  lemma {:induction false} CollapseKeepsNoTag(s: string)
    requires NoTag(s)
    ensures NoTag(Collapse(s))
    decreases |s|
  {
    if |s| > 0 {
      if IsSpace(s[0]) {
        var t := DropSpaces(s);
        NoTagSuffix(s, |s| - |t|);
        CollapseKeepsNoTag(t);
        NoTagCons(' ', Collapse(t));
      } else {
        var t := s[1..];
        NoTagSuffix(s, 1);
        CollapseKeepsNoTag(t);
        if s[0] == '<' {
          NoCloseAfterOpen(s);
          CollapseKeepsChars(t, '>');
        }
        NoTagCons(s[0], Collapse(t));
      }
    }
  }

  /** A suffix of a text without tags has none. */
  lemma NoTagSuffix(s: string, off: nat)
    requires NoTag(s) && off <= |s|
    ensures NoTag(s[off..])
  {
    var t := s[off..];
    forall i, j | 0 <= i < j < |t| && t[i] == '<'
      ensures t[j] != '>'
    {
      assert s[i + off] == '<' && t[j] == s[j + off];
    }
  }

  /** In a text without tags that opens with `<`, no `>` follows. */
  lemma NoCloseAfterOpen(s: string)
    requires NoTag(s) && |s| > 0 && s[0] == '<'
    ensures '>' !in s[1..]
  {
    var t := s[1..];
    forall j | 0 <= j < |t|
      ensures t[j] != '>'
    {
      assert t[j] == s[j + 1];
    }
  }

  lemma SliceKeepsShape(s: string, i: int, j: int)
    requires 0 <= i <= j <= |s|
    ensures NoAdjacentSpaces(s) ==> NoAdjacentSpaces(s[i..j])
    ensures OnlyPlainSpaces(s) ==> OnlyPlainSpaces(s[i..j])
    ensures NoTag(s) ==> NoTag(s[i..j])
  {
    var t := s[i..j];
    if NoAdjacentSpaces(s) {
      forall k | 0 <= k < |t| - 1
        ensures !(IsSpace(t[k]) && IsSpace(t[k + 1]))
      {
        assert t[k] == s[i + k] && t[k + 1] == s[i + k + 1];
      }
    }
    if OnlyPlainSpaces(s) {
      forall k | 0 <= k < |t| && IsSpace(t[k])
        ensures t[k] == ' '
      {
        assert t[k] == s[i + k];
      }
    }
    if NoTag(s) {
      forall a, b | 0 <= a < b < |t| && t[a] == '<'
        ensures t[b] != '>'
      {
        assert s[i + a] == '<' && t[b] == s[i + b];
      }
    }
  }

  // ---- The word count sees through the whitespace steps ----

  lemma {:induction false} RemoveSpacesOfDropped(s: string)
    ensures RemoveSpaces(DropSpaces(s)) == RemoveSpaces(s)
    decreases |s|
  {
    if |s| > 0 && IsSpace(s[0]) {
      RemoveSpacesOfDropped(s[1..]);
    }
  }

  lemma {:induction false} RemoveSpacesOfCollapse(s: string)
    ensures RemoveSpaces(Collapse(s)) == RemoveSpaces(s)
    decreases |s|
  {
    if |s| > 0 {
      if IsSpace(s[0]) {
        var t := DropSpaces(s);
        RemoveSpacesOfCollapse(t);
        RemoveSpacesOfDropped(s);
        assert RemoveSpaces([' '] + Collapse(t)) == RemoveSpaces(Collapse(t)) by {
          assert ([' '] + Collapse(t))[1..] == Collapse(t);
        }
      } else {
        RemoveSpacesOfCollapse(s[1..]);
        assert ([s[0]] + Collapse(s[1..]))[1..] == Collapse(s[1..]);
      }
    }
  }

  lemma {:induction false} RemoveSpacesOfTrailing(s: string)
    ensures RemoveSpaces(DropTrailingSpaces(s)) == RemoveSpaces(s)
    decreases |s|
  {
    if |s| > 0 && IsSpace(s[|s| - 1]) {
      var p := s[..|s| - 1];
      RemoveSpacesOfTrailing(p);
      RemoveSpacesAppend(p, [s[|s| - 1]]);
      assert s == p + [s[|s| - 1]];
    }
  }

  lemma {:induction false} RemoveSpacesAppend(a: string, b: string)
    ensures RemoveSpaces(a + b) == RemoveSpaces(a) + RemoveSpaces(b)
    decreases |a|
  {
    if |a| > 0 {
      RemoveSpacesAppend(a[1..], b);
      assert (a + b)[1..] == a[1..] + b;
    } else {
      assert a + b == b;
    }
  }

  /** Collapsing and trimming only touch whitespace: the word count of the
      stripped text is the number of non-whitespace characters outside tags. */
  lemma StripHtmlWordCount(html: string)
    ensures WordCount(StripHtml(html)) == WordCount(ReplaceTags(html))
    ensures RemoveSpaces(StripHtml(html)) == RemoveSpaces(ReplaceTags(html))
  {
    var replaced := ReplaceTags(html);
    var collapsed := Collapse(replaced);
    RemoveSpacesOfCollapse(replaced);
    RemoveSpacesOfDropped(collapsed);
    RemoveSpacesOfTrailing(DropSpaces(collapsed));
  }

  /** Text that is already plain (no tags, single inner spaces, trimmed) passes through unchanged. */
  lemma {:induction false} StripHtmlIdempotent(html: string)
    ensures StripHtml(StripHtml(html)) == StripHtml(html)
  {
    var s := StripHtml(html);
    NoTagNoClose(s);
    assert ReplaceTags(s) == s;
    CollapseNormal(s);
    assert Collapse(ReplaceTags(s)) == s;
    TrimNormal(s);
  }

  /** In tag-free text, no `>` follows a `<`; but `>` alone may appear. The tag
      replacement leaves such text unchanged. */
  lemma {:induction false} NoTagNoClose(s: string)
    requires NoTag(s)
    ensures ReplaceTags(s) == s
    decreases |s|
  {
    if |s| > 0 {
      var t := s[1..];
      assert NoTag(t) by {
        forall i, j | 0 <= i < j < |t| && t[i] == '<'
          ensures t[j] != '>'
        {
          assert s[i + 1] == '<' && t[j] == s[j + 1];
        }
      }
      if s[0] == '<' {
        assert '>' !in t by {
          forall j | 0 <= j < |t|
            ensures t[j] != '>'
          {
            assert t[j] == s[j + 1];
          }
        }
        NoCloseUnchanged(t);
      } else {
        NoTagNoClose(t);
      }
    }
  }

  lemma {:induction false} CollapseNormal(s: string)
    requires NoAdjacentSpaces(s) && OnlyPlainSpaces(s)
    ensures Collapse(s) == s
    decreases |s|
  {
    if |s| > 0 {
      var t := s[1..];
      assert NoAdjacentSpaces(t) && OnlyPlainSpaces(t) by {
        SliceKeepsShape(s, 1, |s|);
      }
      if IsSpace(s[0]) {
        assert |t| > 0 ==> !IsSpace(t[0]);
        assert DropSpaces(s) == DropSpaces(t);
        assert DropSpaces(t) == t;
      }
      CollapseNormal(t);
    }
  }

  lemma TrimNormal(s: string)
    requires Trimmed(s)
    ensures Trim(s) == s
  {
  }
}
