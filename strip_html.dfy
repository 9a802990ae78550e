/**
 * `stripHtml(html)` from the entry hook: `html.replace(/<[^>]*>/g, '').trim()`.
 *
 * The global replace scans left to right. At a `<` that has a `>` somewhere
 * after it, the pattern matches through the first such `>` (the class `[^>]`
 * admits further `<`), and scanning resumes after it. A `<` with no `>` after
 * it matches nothing and is kept. `trim` then removes JavaScript white space
 * and line terminators from both ends.
 */
module StripHtml {

  /** ECMAScript WhiteSpace and LineTerminator code points, the set `String.prototype.trim` removes. */
  predicate IsJsSpace(c: char) {
    c == '\t' || c == '\n' || c == '\U{000B}' || c == '\U{000C}' || c == '\r' || c == ' '
    || c == '\U{00A0}' || c == '\U{1680}' || ('\U{2000}' <= c <= '\U{200A}')
    || c == '\U{2028}' || c == '\U{2029}' || c == '\U{202F}' || c == '\U{205F}'
    || c == '\U{3000}' || c == '\U{FEFF}'
  }

  /** No `<` is followed, anywhere later, by a `>`: nothing the pattern could match. */
  predicate NoTag(t: string) {
    forall i, j :: 0 <= i < j < |t| && t[i] == '<' ==> t[j] != '>'
  }

  /** The position of the first `>`. */
  function FirstClose(s: string): (k: nat)
    requires '>' in s
    ensures k < |s| && s[k] == '>'
    ensures forall j :: 0 <= j < k ==> s[j] != '>'
  {
    if s[0] == '>' then 0
    else
      assert '>' in s[1..] by {
        var k :| 0 <= k < |s| && s[k] == '>';
        assert s[1..][k - 1] == '>';
      }
      1 + FirstClose(s[1..])
  }

  /** What is left after the first `>`. */
  function AfterClose(s: string): (r: string)
    requires '>' in s
    ensures |r| < |s| && r == s[FirstClose(s) + 1..]
  {
    s[FirstClose(s) + 1..]
  }

  /** `s.replace(/<[^>]*>/g, '')`, keeping only characters of `s`, in order. */
  function StripTags(s: string): (r: string)
    ensures |r| <= |s|
    ensures forall c :: c in r ==> c in s
    decreases |s|
  {
    if s == [] then []
    else if s[0] == '<' && '>' in s[1..] then
      var r := StripTags(AfterClose(s[1..]));
      assert forall c :: c in AfterClose(s[1..]) ==> c in s;
      r
    else
      var r := [s[0]] + StripTags(s[1..]);
      assert forall c :: c in s[1..] ==> c in s;
      r
  }

  /** After the replace, no `<` is followed later by a `>`. */
  lemma {:induction false} StripTagsLeavesNoTag(s: string)
    ensures NoTag(StripTags(s))
    decreases |s|
  {
    if s == [] {
    } else if s[0] == '<' && '>' in s[1..] {
      StripTagsLeavesNoTag(AfterClose(s[1..]));
    } else {
      StripTagsLeavesNoTag(s[1..]);
      ConsNoTag(s[0], StripTags(s[1..]));
    }
  }

  /** A character put in front of tag-free text leaves it tag-free unless it is a `<` with a `>` after it. */
  lemma ConsNoTag(c: char, rest: string)
    requires NoTag(rest) && (c == '<' ==> '>' !in rest)
    ensures NoTag([c] + rest)
  {
    var r := [c] + rest;
    forall i, j | 0 <= i < j < |r| && r[i] == '<' ensures r[j] != '>' {
      if i == 0 {
        assert r[j] == rest[j - 1];
      } else {
        assert r[i] == rest[i - 1] && r[j] == rest[j - 1];
      }
    }
  }

  /** After the `<` of a match, the text past the first `>` is what remains. */
  lemma AfterCloseOfMatch(t: string, b: string)
    requires '>' !in t
    ensures '>' in t + ['>'] + b
    ensures AfterClose(t + ['>'] + b) == b
  {
    var u := t + ['>'] + b;
    assert u[|t|] == '>';
    forall j | 0 <= j < |t| ensures u[j] != '>' {
      assert u[j] == t[j];
    }
    assert FirstClose(u) == |t|;
    assert u[|t| + 1..] == b;
  }

  /**
   * One match of the pattern: text without a `<`, then `<`, then text without
   * a `>`, then `>`. The text before the match is kept, the match is removed,
   * and the replace goes on after it.
   */
  lemma {:induction false} StripTagsMatch(a: string, t: string, b: string)
    requires '<' !in a && '>' !in t
    ensures StripTags(a + ['<'] + t + ['>'] + b) == a + StripTags(b)
  {
    var s := a + ['<'] + t + ['>'] + b;
    if a == [] {
      assert s == ['<'] + (t + ['>'] + b);
      assert s[1..] == t + ['>'] + b;
      AfterCloseOfMatch(t, b);
    } else {
      assert s[0] == a[0] && s[0] != '<';
      assert s[1..] == a[1..] + ['<'] + t + ['>'] + b;
      StripTagsMatch(a[1..], t, b);
      assert a == [a[0]] + a[1..];
    }
  }

  /** Text with nothing the pattern matches comes out of the replace unchanged. */
  lemma {:induction false} StripTagsOfNoTag(t: string)
    requires NoTag(t)
    ensures StripTags(t) == t
  {
    if t != [] {
      assert NoTag(t[1..]) by {
        forall i, j | 0 <= i < j < |t[1..]| && t[1..][i] == '<' ensures t[1..][j] != '>' {
          assert t[i + 1] == '<';
        }
      }
      if t[0] == '<' {
        assert '>' !in t[1..] by {
          forall j | 0 <= j < |t[1..]| ensures t[1..][j] != '>' {
            assert t[j + 1] != '>';
          }
        }
      }
      StripTagsOfNoTag(t[1..]);
      assert t == [t[0]] + t[1..];
    }
  }

  /** `trimStart`: drops the leading white space. */
  function TrimStart(s: string): (r: string)
    ensures |r| <= |s| && r == s[|s| - |r|..]
    ensures r == [] || !IsJsSpace(r[0])
    ensures forall i :: 0 <= i < |s| - |r| ==> IsJsSpace(s[i])
  {
    if s != [] && IsJsSpace(s[0]) then TrimStart(s[1..]) else s
  }

  /** `trimEnd`: drops the trailing white space. */
  function TrimEnd(s: string): (r: string)
    ensures |r| <= |s| && r == s[..|r|]
    ensures r == [] || !IsJsSpace(r[|r| - 1])
    ensures forall i :: |r| <= i < |s| ==> IsJsSpace(s[i])
  {
    if s != [] && IsJsSpace(s[|s| - 1]) then TrimEnd(s[..|s| - 1]) else s
  }

  /** `trim`: the slice of `s` between its leading and trailing white space. */
  function Trim(s: string): (r: string)
    ensures |r| <= |s|
    ensures r == [] || (!IsJsSpace(r[0]) && !IsJsSpace(r[|r| - 1]))
  {
    TrimEnd(TrimStart(s))
  }

  /** Trimming only removes characters from the ends: it keeps text free of tags and adds no character. */
  lemma TrimIsSlice(s: string)
    ensures NoTag(s) ==> NoTag(Trim(s))
    ensures forall c :: c in Trim(s) ==> c in s
  {
    var t := TrimStart(s);
    var r := Trim(s);
    var i := |s| - |t|;
    assert r == s[i..][..|r|];
    assert forall k :: 0 <= k < |r| ==> r[k] == s[i + k];
    if NoTag(s) {
      forall a, b | 0 <= a < b < |r| && r[a] == '<' ensures r[b] != '>' {
        assert r[a] == s[i + a] && r[b] == s[i + b];
      }
    }
  }

  /** Trimming text without leading or trailing white space changes nothing. */
  lemma TrimOfTrimmed(t: string)
    requires t == [] || (!IsJsSpace(t[0]) && !IsJsSpace(t[|t| - 1]))
    ensures Trim(t) == t
  {
  }

  /** `stripHtml(html)` */
  function StripHtml(html: string): (r: string)
    ensures r == [] || (!IsJsSpace(r[0]) && !IsJsSpace(r[|r| - 1]))
    ensures NoTag(r)
    ensures forall c :: c in r ==> c in html
  {
    var t := StripTags(html);
    StripTagsLeavesNoTag(html);
    TrimIsSlice(t);
    Trim(t)
  }

  /** Stripping twice is stripping once. */
  lemma StripHtmlIdempotent(html: string)
    ensures StripHtml(StripHtml(html)) == StripHtml(html)
  {
    var r := StripHtml(html);
    StripTagsOfNoTag(r);
    TrimOfTrimmed(r);
  }

  /** A lone tag is removed entirely. */
  lemma StripTagsLoneTag()
    ensures StripTags("<i>") == ""
  {
    assert "<i>" == [] + ['<'] + "i" + ['>'] + [];
    StripTagsMatch([], "i", []);
  }

  /** A `<` with no `>` after it is kept. */
  lemma StripTagsUnclosed()
    ensures StripTags("a<b") == "a<b"
  {
    StripTagsOfNoTag("a<b");
  }

  /** The text around a tag is kept. */
  lemma StripTagsAroundTag()
    ensures StripTags("a<b>c") == "ac"
  {
    assert "a<b>c" == "a" + ['<'] + "b" + ['>'] + "c";
    StripTagsMatch("a", "b", "c");
    StripTagsOfNoTag("c");
  }

  /** `stripHtml("<i>")` is empty. */
  lemma StripHtmlLoneTag()
    ensures StripHtml("<i>") == ""
  {
    StripTagsLoneTag();
  }

  /** `stripHtml("a<b")` keeps the unclosed `<`; there is nothing to trim. */
  lemma StripHtmlUnclosed()
    ensures StripHtml("a<b") == "a<b"
  {
    StripTagsUnclosed();
    assert !IsJsSpace('a') && !IsJsSpace('b');
    TrimOfTrimmed("a<b");
  }

  /** `stripHtml("a<b>c")` is the text around the tag. */
  lemma StripHtmlAroundTag()
    ensures StripHtml("a<b>c") == "ac"
  {
    StripTagsAroundTag();
    assert !IsJsSpace('a') && !IsJsSpace('c');
    TrimOfTrimmed("ac");
  }
}
