/**
 * `create_preview_html`: remove every match of the regular expression
 * `<[^>]+>` from the rendered HTML, then, when the rest is longer than
 * 1500 bytes, keep its first 1500 bytes and append "...".
 *
 * Text is a sequence of Unicode scalar values, as a Rust `str` is; its
 * length in bytes is the length of its UTF-8 encoding. Rust's slice
 * `&text[..1500]` panics when byte 1500 falls inside a character: the
 * model returns `None` in exactly that case.
 */
module Preview {
  import opened Wrappers

  const PREVIEW_BYTES: nat := 1500
  const ELLIPSIS: string := "..."

  /** A string matched in full by `<[^>]+>`. */
  predicate IsTag(t: string)
  {
    |t| >= 3 && t[0] == '<' && t[|t| - 1] == '>' && '>' !in t[1..|t| - 1]
  }

  /** No substring of `s` matches `<[^>]+>`. */
  predicate NoTag(s: string)
  {
    forall i, j :: 0 <= i <= j <= |s| ==> !IsTag(s[i..j])
  }

  /** Index of the first `c` in `s`, if any. */
  function FirstIndex(s: string, c: char): (r: Option<nat>)
    ensures r.Some? ==> r.value < |s| && s[r.value] == c && c !in s[..r.value]
    ensures r.None? ==> c !in s
    decreases |s|
  {
    if s == [] then None
    else if s[0] == c then Some(0)
    else match FirstIndex(s[1..], c)
      case None => None
      case Some(i) => assert s[..i + 1] == [s[0]] + s[1..][..i]; Some(i + 1)
  }

  /**
   * Length of the match of `<[^>]+>` that starts at the beginning of `s`:
   * a `<`, then every character up to the first `>`, which must not be
   * the very next one.
   */
  function TagAt(s: string): (r: Option<nat>)
    ensures r.Some? ==> 3 <= r.value <= |s| && IsTag(s[..r.value])
    ensures r.None? ==> forall k :: 0 <= k <= |s| ==> !IsTag(s[..k])
  {
    if |s| >= 1 && s[0] == '<' then
      match FirstIndex(s[1..], '>')
      case Some(j) =>
        if j >= 1 then
          assert s[..j + 2][1..j + 1] == s[1..][..j];
          Some(j + 2)
        else
          assert forall k :: 3 <= k <= |s| ==> s[..k][1] in s[..k][1..k - 1];
          None
      case None =>
        assert forall k :: 3 <= k <= |s| ==> s[..k][k - 1] in s[1..];
        None
    else None
  }

  /**
   * `Regex::new(r"<[^>]+>").replace_all(html, "")`: scanning left to
   * right, a match starting here is dropped whole; otherwise the
   * character is kept and the scan moves on by one.
   */
  function StripTags(s: string): (r: string)
    ensures |r| <= |s|
    decreases |s|
  {
    if s == [] then []
    else match TagAt(s)
      case Some(n) => StripTags(s[n..])
      case None => [s[0]] + StripTags(s[1..])
  }

  /** Stripping only removes characters. */
  lemma {:induction false} StripTagsChars(s: string, c: char)
    requires c in StripTags(s)
    ensures c in s
    decreases |s|
  {
    match TagAt(s)
    case Some(n) =>
      StripTagsChars(s[n..], c);
    case None =>
      if c != s[0] {
        StripTagsChars(s[1..], c);
      }
  }

  /** `a` is `b` with some characters deleted, the rest kept in order. */
  predicate IsSubsequence(a: string, b: string)
    decreases |b|
  {
    if b == [] then a == []
    else (a != [] && a[0] == b[0] && IsSubsequence(a[1..], b[1..])) || IsSubsequence(a, b[1..])
  }

  lemma {:induction false} SubsequenceOfSuffix(a: string, b: string, n: nat)
    requires n <= |b| && IsSubsequence(a, b[n..])
    ensures IsSubsequence(a, b)
    decreases n
  {
    if n > 0 {
      assert b[1..][n - 1..] == b[n..];
      SubsequenceOfSuffix(a, b[1..], n - 1);
    }
  }

  /** Every character that is not removed keeps its original order. */
  lemma {:induction false} StripTagsSubsequence(s: string)
    ensures IsSubsequence(StripTags(s), s)
    decreases |s|
  {
    if s != [] {
      match TagAt(s)
      case Some(n) =>
        StripTagsSubsequence(s[n..]);
        SubsequenceOfSuffix(StripTags(s), s, n);
      case None =>
        StripTagsSubsequence(s[1..]);
        assert ([s[0]] + StripTags(s[1..]))[1..] == StripTags(s[1..]);
    }
  }

  /** A string free of tags after a first character that starts no tag is free of tags. */
  lemma NoTagCons(c: char, t: string)
    requires NoTag(t)
    requires forall k :: 0 <= k <= |t| + 1 ==> !IsTag(([c] + t)[..k])
    ensures NoTag([c] + t)
  {
    var s := [c] + t;
    forall i, j | 0 <= i <= j <= |s|
      ensures !IsTag(s[i..j])
    {
      if i == 0 {
        assert s[i..j] == s[..j];
      } else {
        assert s[i..j] == t[i - 1..j - 1];
      }
    }
  }

  /** Nothing that `<[^>]+>` matches is left after stripping. */
  lemma {:induction false} StripTagsLeavesNoTag(s: string)
    ensures NoTag(StripTags(s))
    decreases |s|
  {
    if s == [] {
    } else {
      match TagAt(s)
      case Some(n) =>
        StripTagsLeavesNoTag(s[n..]);
      case None =>
        var rest := StripTags(s[1..]);
        StripTagsLeavesNoTag(s[1..]);
        var r := [s[0]] + rest;
        forall k | 0 <= k <= |r|
          ensures !IsTag(r[..k])
        {
          if s[0] == '<' && k >= 3 {
            var first := FirstIndex(s[1..], '>');
            if first.None? {
              if IsTag(r[..k]) {
                assert r[..k][k - 1] == rest[k - 2];
                StripTagsChars(s[1..], '>');
              }
            } else {
              assert s[1] == '>';
              assert TagAt(s[1..]).None?;
              assert rest[0] == '>';
              assert r[..k][1] == '>';
              assert r[..k][1] in r[..k][1..k - 1];
            }
          }
        }
        NoTagCons(s[0], rest);
    }
  }

  /** Text without tags is returned as it is. */
  lemma {:induction false} StripTagsFixpoint(s: string)
    requires NoTag(s)
    ensures StripTags(s) == s
    decreases |s|
  {
    if s != [] {
      assert TagAt(s).None? by {
        forall k | 0 <= k <= |s|
          ensures !IsTag(s[..k])
        {
          assert s[..k] == s[0..k];
        }
      }
      assert NoTag(s[1..]) by {
        forall i, j | 0 <= i <= j <= |s[1..]|
          ensures !IsTag(s[1..][i..j])
        {
          assert s[1..][i..j] == s[i + 1..j + 1];
        }
      }
      StripTagsFixpoint(s[1..]);
    }
  }

  /** Stripping twice is the same as stripping once. */
  lemma StripTagsIdempotent(s: string)
    ensures StripTags(StripTags(s)) == StripTags(s)
  {
    StripTagsLeavesNoTag(s);
    StripTagsFixpoint(StripTags(s));
  }

  /** Input without any `<` is returned unchanged. */
  lemma NoOpenBracketUnchanged(s: string)
    requires '<' !in s
    ensures StripTags(s) == s
  {
    forall i, j | 0 <= i <= j <= |s|
      ensures !IsTag(s[i..j])
    {
      if j - i >= 1 {
        assert s[i..j][0] == s[i];
      }
    }
    StripTagsFixpoint(s);
  }

  /** `<>` is not a match (the class `[^>]+` needs one character): both brackets stay and the scan goes on after them. */
  lemma EmptyBracketsKept(rest: string)
    ensures StripTags("<>" + rest) == "<>" + StripTags(rest)
  {
    var s := "<>" + rest;
    var t := s[1..];
    assert t[0] == '>' && t[..0] == [];
    FirstIndexAt(t, '>', 0);
    assert TagAt(s).None?;
    assert StripTags(s) == [s[0]] + StripTags(t);
    assert TagAt(t).None?;
    assert t[1..] == rest;
    assert StripTags(t) == [t[0]] + StripTags(rest);
  }

  /** A `<` with no `>` after it starts no match: it stays, and so does everything after it. */
  lemma UnclosedBracketKept(rest: string)
    requires '>' !in rest
    ensures StripTags("<" + rest) == "<" + rest
  {
    assert NoTag(rest) by {
      forall i, j | 0 <= i <= j <= |rest|
        ensures !IsTag(rest[i..j])
      {
        if j - i >= 1 {
          assert rest[i..j][j - i - 1] == rest[j - 1];
        }
      }
    }
    StripTagsFixpoint(rest);
    assert ("<" + rest)[1..] == rest;
  }

  lemma {:induction false} FirstIndexAt(s: string, c: char, i: nat)
    requires i < |s| && s[i] == c && c !in s[..i]
    ensures FirstIndex(s, c) == Some(i)
    decreases i
  {
    if i > 0 {
      assert s[0] == s[..i][0];
      assert s[1..][..i - 1] == s[1..i];
      FirstIndexAt(s[1..], c, i - 1);
    }
  }

  /** A tag at the front is dropped whole. */
  lemma StripTagsDropsLeadingTag(t: string, rest: string)
    requires IsTag(t)
    ensures StripTags(t + rest) == StripTags(rest)
  {
    var s := t + rest;
    assert s[1..][..|t| - 2] == t[1..|t| - 1];
    FirstIndexAt(s[1..], '>', |t| - 2);
    assert s[|t|..] == rest;
  }

  /** Text without any `<` in front is kept as it is. */
  lemma {:induction false} StripTagsKeepsPlainPrefix(a: string, rest: string)
    requires '<' !in a
    ensures StripTags(a + rest) == a + StripTags(rest)
    decreases |a|
  {
    if a != [] {
      var s := a + rest;
      assert s[0] == a[0];
      assert s[1..] == a[1..] + rest;
      StripTagsKeepsPlainPrefix(a[1..], rest);
      assert [a[0]] + a[1..] == a;
    } else {
      assert a + rest == rest;
    }
  }

  /**
   * Markup around and inside a paragraph goes and the words stay:
   * `<p>a<b>b</b></p>` strips to `a` followed by `b` (so
   * `<p>Hello <b>World</b></p>` strips to `Hello World`).
   */
  lemma StripTagsParagraph(a: string, b: string)
    requires '<' !in a && '<' !in b
    ensures StripTags("<p>" + (a + ("<b>" + (b + ("</b>" + "</p>"))))) == a + b
  {
    var s4 := "</b>" + "</p>";
    assert StripTags(s4) == [] by {
      StripTagsDropsLeadingTag("</p>", []);
      assert "</p>" + [] == "</p>";
      StripTagsDropsLeadingTag("</b>", "</p>");
    }
    var s3 := b + s4;
    StripTagsKeepsPlainPrefix(b, s4);
    var s2 := "<b>" + s3;
    StripTagsDropsLeadingTag("<b>", s3);
    var s1 := a + s2;
    StripTagsKeepsPlainPrefix(a, s2);
    StripTagsDropsLeadingTag("<p>", s1);
  }

  /** Number of bytes of the UTF-8 encoding of `c`. */
  function Utf8Width(c: char): (w: nat)
    ensures 1 <= w <= 4
  {
    if c as int < 0x80 then 1
    else if c as int < 0x800 then 2
    else if c as int < 0x1_0000 then 3
    else 4
  }

  /** `str::len`: the number of bytes of the UTF-8 encoding. */
  function ByteLen(s: string): nat
    decreases |s|
  {
    if s == [] then 0 else Utf8Width(s[0]) + ByteLen(s[1..])
  }

  predicate IsAscii(s: string)
  {
    forall i :: 0 <= i < |s| ==> s[i] as int < 0x80
  }

  lemma {:induction false} ByteLenConcat(a: string, b: string)
    ensures ByteLen(a + b) == ByteLen(a) + ByteLen(b)
    decreases |a|
  {
    if a != [] {
      assert (a + b)[0] == a[0];
      assert (a + b)[1..] == a[1..] + b;
      ByteLenConcat(a[1..], b);
    } else {
      assert a + b == b;
    }
  }

  lemma {:induction false} ByteLenAscii(s: string)
    requires IsAscii(s)
    ensures ByteLen(s) == |s|
    decreases |s|
  {
    if s != [] {
      ByteLenAscii(s[1..]);
    }
  }

  /**
   * `&s[..n]`: the prefix of `s` that is exactly `n` bytes long, or
   * `None` (a panic) when byte `n` is not on a character boundary.
   */
  function CutAtByte(s: string, n: nat): (r: Option<string>)
    ensures r.Some? ==> r.value <= s && ByteLen(r.value) == n
    decreases |s|
  {
    if n == 0 then Some([])
    else if s == [] || Utf8Width(s[0]) > n then None
    else match CutAtByte(s[1..], n - Utf8Width(s[0]))
      case None => None
      case Some(p) => assert ([s[0]] + p)[1..] == p; Some([s[0]] + p)
  }

  /** The slice panics exactly when no prefix of `s` is `n` bytes long. */
  lemma {:induction false} CutAtByteNone(s: string, n: nat)
    ensures CutAtByte(s, n).None? <==> forall k :: 0 <= k <= |s| ==> ByteLen(s[..k]) != n
    decreases |s|
  {
    if CutAtByte(s, n).Some? {
      var p := CutAtByte(s, n).value;
      assert s[..|p|] == p;
    } else if s != [] {
      var w := Utf8Width(s[0]);
      forall k | 1 <= k <= |s|
        ensures ByteLen(s[..k]) == w + ByteLen(s[1..][..k - 1])
      {
        assert s[..k][1..] == s[1..][..k - 1];
      }
      if w <= n {
        CutAtByteNone(s[1..], n - w);
        forall k | 1 <= k <= |s|
          ensures ByteLen(s[..k]) != n
        {
          assert ByteLen(s[1..][..k - 1]) != n - w;
        }
      }
    }
  }

  lemma {:induction false} CutAtByteAscii(s: string, n: nat)
    requires IsAscii(s) && n <= |s|
    ensures CutAtByte(s, n) == Some(s[..n])
    decreases n
  {
    if n > 0 {
      CutAtByteAscii(s[1..], n - 1);
      assert [s[0]] + s[1..][..n - 1] == s[..n];
    }
  }

  /** `create_preview_html`; `None` stands for the panic of the byte slice. */
  function CreatePreviewHtml(html: string): (r: Option<string>)
    ensures r.Some? ==> ByteLen(r.value) <= PREVIEW_BYTES + |ELLIPSIS|
    ensures r.None? ==> ByteLen(StripTags(html)) > PREVIEW_BYTES
  {
    var text := StripTags(html);
    if ByteLen(text) > PREVIEW_BYTES then
      match CutAtByte(text, PREVIEW_BYTES)
      case Some(p) => ByteLenConcat(p, ELLIPSIS); Some(p + ELLIPSIS)
      case None => None
    else Some(text)
  }

  /**
   * The preview is the stripped text when that is at most 1500 bytes;
   * otherwise its first 1500 bytes and "...", 1503 bytes in all; the
   * only failure is a cut that falls inside a character.
   */
  lemma PreviewContract(html: string)
    ensures var text, r := StripTags(html), CreatePreviewHtml(html);
      && (ByteLen(text) <= PREVIEW_BYTES ==> r == Some(text))
      && (ByteLen(text) > PREVIEW_BYTES && r.Some? ==>
            && |r.value| >= 3
            && r.value[..|r.value| - 3] <= text
            && ByteLen(r.value[..|r.value| - 3]) == PREVIEW_BYTES
            && r.value[|r.value| - 3..] == ELLIPSIS
            && ByteLen(r.value) == PREVIEW_BYTES + 3)
      && (r.None? <==> ByteLen(text) > PREVIEW_BYTES && forall k :: 0 <= k <= |text| ==> ByteLen(text[..k]) != PREVIEW_BYTES)
      && (r.Some? ==> ByteLen(r.value) <= PREVIEW_BYTES + 3)
  {
    var text := StripTags(html);
    CutAtByteNone(text, PREVIEW_BYTES);
    var r := CreatePreviewHtml(html);
    if ByteLen(text) > PREVIEW_BYTES && r.Some? {
      var p := CutAtByte(text, PREVIEW_BYTES).value;
      assert r.value == p + ELLIPSIS;
      assert r.value[..|r.value| - 3] == p;
      ByteLenConcat(p, ELLIPSIS);
    }
  }

  /** On ASCII text bytes are characters: the cut never panics and keeps the first 1500 characters. */
  lemma PreviewAscii(html: string)
    requires IsAscii(html)
    ensures var text := StripTags(html);
      CreatePreviewHtml(html) == Some(if |text| <= PREVIEW_BYTES then text else text[..PREVIEW_BYTES] + ELLIPSIS)
  {
    var text := StripTags(html);
    assert IsAscii(text) by {
      forall i | 0 <= i < |text|
        ensures text[i] as int < 0x80
      {
        StripTagsChars(html, text[i]);
      }
    }
    ByteLenAscii(text);
    if |text| > PREVIEW_BYTES {
      CutAtByteAscii(text, PREVIEW_BYTES);
    }
  }

  /** 1499 ASCII letters followed by `é` (two bytes): byte 1500 is inside `é`, so the slice panics. */
  lemma PreviewPanicsInsideCharacter()
    ensures CreatePreviewHtml(seq(1499, _ => 'a') + "é").None?
  {
    var a := seq(1499, _ => 'a');
    var s := a + "é";
    NoOpenBracketUnchanged(s) by {
      assert forall i :: 0 <= i < |s| ==> s[i] != '<';
    }
    ByteLenAscii(a);
    ByteLenConcat(a, "é");
    forall k | 0 <= k <= |s|
      ensures ByteLen(s[..k]) != PREVIEW_BYTES
    {
      if k <= 1499 {
        assert s[..k] == a[..k];
        ByteLenAscii(a[..k]);
      } else {
        assert s[..k] == s;
      }
    }
    CutAtByteNone(s, PREVIEW_BYTES);
  }
}
