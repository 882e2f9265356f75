/** The template bookkeeping of the theme reader (src/read-theme.js): which files of a
    theme are templates, and which templates are custom post and page templates, with the
    display name, the post types and the slug derived from a custom template's file name.
    Reading the files from disk is not part of this model; the input is the list of file
    paths. */
module ReadTheme {
  import opened Wrappers
  import opened JsString

  /** `/` or `\`, the separators `[/\\]` matches. */
  predicate IsSeparator(c: char) {
    c == '/' || c == '\\'
  }

  /** No line terminator: `.` in a regular expression matches every character. */
  predicate LineFree(s: string) {
    forall i :: 0 <= i < |s| ==> !IsLineTerminator(s[i])
  }

  /** `/^dir[/\\]+(.*)\.hbs$/` matches `file`: the directory name, at least one separator,
      then characters other than line terminators up to a final `.hbs`. */
  predicate UnderDir(file: string, dir: string) {
    && |dir| + 1 + 4 <= |file|
    && StartsWith(file, dir)
    && IsSeparator(file[|dir|])
    && EndsWith(file, ".hbs")
    && LineFree(file[|dir| + 1..|file| - 4])
  }

  /** The part of `s` after its last line terminator. */
  function AfterLastLine(s: string): (r: string)
    ensures LineFree(r)
  {
    if |s| == 0 then ""
    else if IsLineTerminator(s[|s| - 1]) then ""
    else AfterLastLine(s[..|s| - 1]) + [s[|s| - 1]]
  }

  /** What one entry adds to the templates: nothing for a partial or an `.hbs` file under
      `assets`; otherwise group 1 of `/(.*)\.hbs$/`, which is the text before `.hbs` back to
      the last line terminator; nothing when the file does not end in `.hbs`. */
  function TemplateOf(file: string): seq<string> {
    if UnderDir(file, "partials") || UnderDir(file, "assets") then []
    else if EndsWith(file, ".hbs") then [AfterLastLine(file[..|file| - 4])]
    else []
  }

  /** `extractTemplates(allFiles)`, the reduce over the entries' `file` paths. */
  function ExtractTemplates(files: seq<string>): seq<string> {
    if |files| == 0 then []
    else ExtractTemplates(files[..|files| - 1]) + TemplateOf(files[|files| - 1])
  }

  /** A name with no line terminator is its own last line. */
  lemma {:induction false} AfterLastLinePlain(s: string)
    requires LineFree(s)
    ensures AfterLastLine(s) == s
    decreases |s|
  {
    if |s| > 0 {
      AfterLastLinePlain(s[..|s| - 1]);
    }
  }

  /** The reduce works file by file: the templates of two lists of files are those of the
      first list followed by those of the second. */
  lemma {:induction false} ExtractTemplatesAppend(a: seq<string>, b: seq<string>)
    ensures ExtractTemplates(a + b) == ExtractTemplates(a) + ExtractTemplates(b)
    decreases |b|
  {
    if |b| > 0 {
      var init := b[..|b| - 1];
      ExtractTemplatesAppend(a, init);
      assert (a + b)[..|a + b| - 1] == a + init;
      assert (a + b)[|a + b| - 1] == b[|b| - 1];
    } else {
      assert a + b == a;
    }
  }

  /** A path without line terminators adds its name without `.hbs` exactly when it ends
      in `.hbs` and is neither a partial nor under `assets`. */
  lemma TemplateOfMeaning(f: string, name: string)
    requires LineFree(f)
    ensures name in TemplateOf(f) <==>
              f == name + ".hbs" && !UnderDir(f, "partials") && !UnderDir(f, "assets")
    ensures |TemplateOf(f)| <= 1
  {
    if EndsWith(f, ".hbs") {
      var stem := f[..|f| - 4];
      assert LineFree(stem) by {
        forall i | 0 <= i < |stem| ensures !IsLineTerminator(stem[i]) {
          assert stem[i] == f[i];
        }
      }
      AfterLastLinePlain(stem);
      assert f == stem + ".hbs";
    }
    if f == name + ".hbs" {
      assert EndsWith(f, ".hbs") && f[..|f| - 4] == name;
    }
  }

  /** For paths without line terminators: a name is a template exactly when some file is
      that name plus `.hbs` and is neither a partial nor under `assets`. */
  lemma {:induction false} ExtractTemplatesMeaning(files: seq<string>, name: string)
    requires forall i :: 0 <= i < |files| ==> LineFree(files[i])
    ensures name in ExtractTemplates(files) <==>
              exists i :: 0 <= i < |files| && files[i] == name + ".hbs"
                          && !UnderDir(files[i], "partials") && !UnderDir(files[i], "assets")
    ensures |ExtractTemplates(files)| <= |files|
    decreases |files|
  {
    if |files| > 0 {
      var n := |files| - 1;
      var init := files[..n];
      ExtractTemplatesMeaning(init, name);
      TemplateOfMeaning(files[n], name);
      assert forall i :: 0 <= i < n ==> init[i] == files[i];
    }
  }

  /** A custom template entry. `slug` is `null` for a `custom-` template. */
  datatype CustomTemplate = CustomTemplate(filename: string, name: string, postTypes: seq<string>, slug: Option<string>)

  /** Starts with `post-`, `page-` or `custom-`. */
  predicate HasCustomPrefix(t: string) {
    StartsWith(t, "post-") || StartsWith(t, "page-") || StartsWith(t, "custom-")
  }

  /** The filter: a custom prefix and no `/`. */
  predicate IsCustomName(t: string) {
    HasCustomPrefix(t) && '/' !in t
  }

  /** `\w`: an ASCII letter, digit or `_`. */
  predicate IsWordChar(c: char) {
    ('a' <= c <= 'z') || ('A' <= c <= 'Z') || ('0' <= c <= '9') || c == '_'
  }

  /** `\b\w` matches at `i`: a word character with no word character before it. */
  predicate WordStart(s: string, i: int)
    requires 0 <= i < |s|
  {
    IsWordChar(s[i]) && (i == 0 || !IsWordChar(s[i - 1]))
  }

  /** `toUpperCase` on a word character: only `a`-`z` change. */
  function Upper(c: char): char {
    if 'a' <= c <= 'z' then (c as int - 32) as char else c
  }

  /** `s.replace(/\b\w/g, letter => letter.toUpperCase())`: every word start upper-cased,
      all positions judged on the string as it was. */
  function CapitalizeWords(s: string): (r: string)
    ensures |r| == |s|
  {
    seq(|s|, i requires 0 <= i < |s| => if WordStart(s, i) then Upper(s[i]) else s[i])
  }

  /** The prefix `/^(post-|page-|custom-)/` removes. */
  function PrefixLength(t: string): nat {
    if StartsWith(t, "post-") || StartsWith(t, "page-") then 5
    else if StartsWith(t, "custom-") then 7
    else 0
  }

  /** `generateName(templateName)`: the prefix removed, every `-` turned into a space, each
      word capitalised, and the result trimmed. */
  function GenerateName(t: string): string
    requires PrefixLength(t) <= |t|
  {
    Trim(CapitalizeWords(ReplaceChar(t[PrefixLength(t)..], '-', " ")))
  }

  /** `generateFor(templateName)`: the post types the template applies to. */
  function GenerateFor(t: string): seq<string> {
    if StartsWith(t, "page-") then ["page"]
    else if StartsWith(t, "post-") then ["post"]
    else ["page", "post"]
  }

  /** The text up to the first line terminator. */
  function FirstLine(s: string): (r: string)
    ensures LineFree(r) && |r| <= |s|
  {
    if |s| == 0 || IsLineTerminator(s[0]) then "" else [s[0]] + FirstLine(s[1..])
  }

  /** `generateSlug(templateName)`: `null` for `custom-`, otherwise group 2 of
      `/^(page-|post-)(.*)/`, the rest of the first line after the prefix. */
  function GenerateSlug(t: string): Option<string>
    requires HasCustomPrefix(t)
  {
    if StartsWith(t, "custom-") then None else Some(FirstLine(t[5..]))
  }

  /** The entry pushed for a kept name. */
  function Describe(t: string): CustomTemplate
    requires HasCustomPrefix(t)
  {
    CustomTemplate(t, GenerateName(t), GenerateFor(t), GenerateSlug(t))
  }

  /** `extractCustomTemplates(allTemplates)`: the custom templates, in input order. */
  function ExtractCustomTemplates(all: seq<string>): seq<CustomTemplate> {
    if |all| == 0 then []
    else
      var t := all[|all| - 1];
      ExtractCustomTemplates(all[..|all| - 1]) + if IsCustomName(t) then [Describe(t)] else []
  }

  /** The filter works name by name: the entries of two lists are those of the first
      followed by those of the second. */
  lemma {:induction false} ExtractCustomAppend(a: seq<string>, b: seq<string>)
    ensures ExtractCustomTemplates(a + b) == ExtractCustomTemplates(a) + ExtractCustomTemplates(b)
    decreases |b|
  {
    if |b| > 0 {
      var init := b[..|b| - 1];
      ExtractCustomAppend(a, init);
      assert (a + b)[..|a + b| - 1] == a + init;
      assert (a + b)[|a + b| - 1] == b[|b| - 1];
    } else {
      assert a + b == a;
    }
  }

  /** Every entry describes a name of the input that has a custom prefix and no `/`, and
      every such name has an entry. */
  lemma {:induction false} ExtractCustomMeaning(all: seq<string>)
    ensures var r := ExtractCustomTemplates(all);
      && |r| <= |all|
      && (forall j :: 0 <= j < |r| ==>
            r[j].filename in all && IsCustomName(r[j].filename) && r[j] == Describe(r[j].filename))
      && (forall t :: t in all && IsCustomName(t) ==> Describe(t) in r)
    decreases |all|
  {
    if |all| > 0 {
      var init := all[..|all| - 1];
      ExtractCustomMeaning(init);
      assert all == init + [all[|all| - 1]];
    }
  }

  /** A `page-` template is for pages only, a `post-` template for posts only, and a
      `custom-` template for both. */
  lemma PostTypesMeaning(t: string)
    requires HasCustomPrefix(t)
    ensures "page" in GenerateFor(t) <==> !StartsWith(t, "post-")
    ensures "post" in GenerateFor(t) <==> !StartsWith(t, "page-")
    ensures |GenerateFor(t)| == if StartsWith(t, "custom-") then 2 else 1
  {
    if StartsWith(t, "post-") {
      assert t[1] == "post-"[1];
    }
    if StartsWith(t, "page-") {
      assert t[1] == "page-"[1];
    }
    if StartsWith(t, "custom-") {
      assert t[0] == "custom-"[0];
    }
  }

  /** A `page-` or `post-` name without line terminators is its prefix followed by its
      slug; a `custom-` name has no slug. */
  lemma SlugMeaning(t: string)
    requires HasCustomPrefix(t)
    ensures GenerateSlug(t).None? <==> StartsWith(t, "custom-")
    ensures GenerateSlug(t).Some? && LineFree(t) ==> t == t[..5] + GenerateSlug(t).value
  {
    if GenerateSlug(t).Some? && LineFree(t) {
      var rest := t[5..];
      assert LineFree(rest) by {
        forall i | 0 <= i < |rest| ensures !IsLineTerminator(rest[i]) {
          assert rest[i] == t[5 + i];
        }
      }
      FirstLinePlain(rest);
      assert t == t[..5] + rest;
    }
  }

  lemma {:induction false} FirstLinePlain(s: string)
    requires LineFree(s)
    ensures FirstLine(s) == s
    decreases |s|
  {
    if |s| > 0 {
      FirstLinePlain(s[1..]);
      assert s == [s[0]] + s[1..];
    }
  }

  lemma {:induction false} ReplaceCharRemoves(s: string, c: char, with: string)
    requires c !in with
    ensures c !in ReplaceChar(s, c, with)
    decreases |s|
  {
    if |s| > 0 {
      ReplaceCharRemoves(s[1..], c, with);
    }
  }

  /** A word character stays one after capitalisation, and nothing else becomes one. */
  lemma CapitalizeKeepsWords(s: string, k: int)
    requires 0 <= k < |s|
    ensures IsWordChar(CapitalizeWords(s)[k]) <==> IsWordChar(s[k])
    ensures CapitalizeWords(s)[k] == '-' <==> s[k] == '-'
  {
  }

  /** At a word start the capitalised text holds no lower-case letter. */
  lemma WordStartsCapitalized(s: string)
    ensures var c := CapitalizeWords(s);
      forall p :: 0 <= p < |c| && WordStart(c, p) ==> !('a' <= c[p] <= 'z')
  {
    var c := CapitalizeWords(s);
    forall p | 0 <= p < |c| && WordStart(c, p) ensures !('a' <= c[p] <= 'z') {
      CapitalizeKeepsWords(s, p);
      if p > 0 {
        CapitalizeKeepsWords(s, p - 1);
      }
    }
  }

  /** `trim` keeps a window of the text, just after whitespace or at its start. */
  lemma TrimWindow(s: string)
    ensures var l := LeadingWhitespace(s);
      && l + |Trim(s)| <= |s| && Trim(s) == s[l..l + |Trim(s)|]
      && (l > 0 ==> IsWhitespace(s[l - 1]))
  {
    var l := LeadingWhitespace(s);
    LeadingWhitespaceMeaning(s);
    if l > 0 {
      assert s[..l][l - 1] == s[l - 1];
    }
  }

  /** Trimming keeps every word start a word start, since whitespace is not a word
      character. */
  lemma TrimKeepsWordStarts(c: string)
    requires forall p :: 0 <= p < |c| && WordStart(c, p) ==> !('a' <= c[p] <= 'z')
    ensures var n := Trim(c);
      forall i :: 0 <= i < |n| && WordStart(n, i) ==> !('a' <= n[i] <= 'z')
  {
    var n := Trim(c);
    var l := LeadingWhitespace(c);
    TrimWindow(c);
    forall i | 0 <= i < |n| && WordStart(n, i) ensures !('a' <= n[i] <= 'z') {
      assert n[i] == c[l + i];
      if i > 0 {
        assert n[i - 1] == c[l + i - 1];
      }
      assert WordStart(c, l + i);
    }
  }

  /** The display name has no `-`, no whitespace at either end, and every word in it starts
      with a character other than a lower-case letter. */
  lemma NameMeaning(t: string)
    requires PrefixLength(t) <= |t|
    ensures var n := GenerateName(t);
      && '-' !in n
      && (n != "" ==> !IsWhitespace(n[0]) && !IsWhitespace(n[|n| - 1]))
      && forall i :: 0 <= i < |n| && WordStart(n, i) ==> !('a' <= n[i] <= 'z')
  {
    var spaced := ReplaceChar(t[PrefixLength(t)..], '-', " ");
    var cap := CapitalizeWords(spaced);
    var n := GenerateName(t);
    ReplaceCharRemoves(t[PrefixLength(t)..], '-', " ");
    assert '-' !in cap by {
      forall k | 0 <= k < |cap| ensures cap[k] != '-' {
        CapitalizeKeepsWords(spaced, k);
        assert spaced[k] in spaced;
      }
    }
    TrimWindow(cap);
    if n != "" {
      TrimEdges(cap);
    }
    WordStartsCapitalized(spaced);
    TrimKeepsWordStarts(cap);
  }
}
