/** The result panel (components/ArticlePreview.tsx): which of its views is
    shown, the download file name, the share text, and the guards of the
    copy, download and share buttons. Clipboard, sharing and file download
    are browser services; the model records what is handed to them. */
module ArticlePreview {
  import opened Wrappers
  import opened Text
  import opened Types

  /** The characters `[\w\s-]` that the slug's first step keeps. */
  predicate IsSlugSource(c: char) {
    IsWordChar(c) || IsWhitespace(c) || c == '-'
  }

  /** `topic.replace(/[^\w\s-]/g, '')`: keep word characters, whitespace
      and `-`, in their order, and drop everything else. */
  function KeepSlugSource(s: string): (r: string)
    ensures |r| <= |s|
    ensures forall i :: 0 <= i < |r| ==> IsSlugSource(r[i])
    ensures (forall i :: 0 <= i < |s| ==> IsSlugSource(s[i])) ==> r == s
    ensures (forall i :: 0 <= i < |s| ==> !IsSlugSource(s[i])) ==> r == []
  {
    if s == [] then []
    else if IsSlugSource(s[0]) then [s[0]] + KeepSlugSource(s[1..])
    else KeepSlugSource(s[1..])
  }

  /** The removal works character by character: what is kept of `a + b` is
      what is kept of `a` followed by what is kept of `b`. With the cases of
      a single kept and a single dropped character above, this fixes the
      result for every topic. */
  lemma {:induction false} KeepSlugSourceAppend(a: string, b: string)
    ensures KeepSlugSource(a + b) == KeepSlugSource(a) + KeepSlugSource(b)
  {
    if a == [] {
      assert a + b == b;
    } else {
      assert (a + b)[0] == a[0];
      assert (a + b)[1..] == a[1..] + b;
      KeepSlugSourceAppend(a[1..], b);
    }
  }

  /** `s.replace(/\s+/g, '-')`: each maximal whitespace run becomes one
      `-`. */
  function DashWhitespace(s: string): (r: string)
    ensures NoWhitespace(r)
    ensures forall i :: 0 <= i < |r| ==> r[i] == '-' || r[i] in s
    decreases |s|
  {
    if s == [] then []
    else if IsWhitespace(s[0]) then ['-'] + DashWhitespace(TrimStart(s))
    else [s[0]] + DashWhitespace(s[1..])
  }

  /** Replacing whitespace runs by `-` is splitting on them and joining with
      `-`: every maximal run, and nothing else, turns into exactly one `-`. */
  lemma {:induction false} DashWhitespaceIsSplitJoin(s: string)
    ensures DashWhitespace(s) == Join(SplitWhitespace(s), '-')
    decreases |s|
  {
    if s == [] {
    } else if IsWhitespace(s[0]) {
      var t := TrimStart(s);
      DashWhitespaceIsSplitJoin(t);
      assert SplitWhitespace(s) == [[]] + SplitWhitespace(t);
      assert Join(SplitWhitespace(s), '-') == [] + ['-'] + Join(SplitWhitespace(t), '-');
    } else {
      var rest := SplitWhitespace(s[1..]);
      DashWhitespaceIsSplitJoin(s[1..]);
      var pieces := SplitWhitespace(s);
      assert pieces == [[s[0]] + rest[0]] + rest[1..];
      if |rest| == 1 {
        assert Join(pieces, '-') == [s[0]] + rest[0];
      } else {
        assert pieces[1..] == rest[1..];
        assert Join(pieces, '-') == [s[0]] + rest[0] + ['-'] + Join(rest[1..], '-');
        assert Join(rest, '-') == rest[0] + ['-'] + Join(rest[1..], '-');
      }
    }
  }

  /** A character a slug may hold: `[a-z0-9_-]`. */
  predicate IsSlugChar(c: char) {
    IsAsciiLower(c) || IsDigit(c) || c == '_' || c == '-'
  }

  /** The topic part of the download file name. */
  function Slug(topic: string): (r: string)
    ensures forall i :: 0 <= i < |r| ==> IsSlugChar(r[i])
    ensures NoWhitespace(r)
  {
    var kept := KeepSlugSource(topic);
    var dashed := DashWhitespace(kept);
    assert forall i :: 0 <= i < |dashed| ==> IsWordChar(dashed[i]) || dashed[i] == '-' by {
      forall i | 0 <= i < |dashed| ensures IsWordChar(dashed[i]) || dashed[i] == '-' {
        if dashed[i] != '-' {
          var j :| 0 <= j < |kept| && kept[j] == dashed[i];
        }
      }
    }
    Lower(dashed)
  }

  /** The slug is the kept text split on whitespace runs, joined with `-`,
      lowercased. */
  lemma SlugIsJoinedWords(topic: string)
    ensures Slug(topic) == Lower(Join(SplitWhitespace(KeepSlugSource(topic)), '-'))
  {
    DashWhitespaceIsSplitJoin(KeepSlugSource(topic));
  }

  /** A topic with no character the slug keeps (no ASCII letter or digit,
      `_`, `-` or whitespace) gives an empty slug. */
  lemma SlugOfUnkeptTopic(topic: string)
    requires forall i :: 0 <= i < |topic| ==> !IsSlugSource(topic[i])
    ensures Slug(topic) == []
  {
  }

  /** Replacing whitespace runs leaves a whitespace-free start alone. */
  lemma {:induction false} DashWhitespaceKeepsWord(w: string, rest: string)
    requires NoWhitespace(w)
    ensures DashWhitespace(w + rest) == w + DashWhitespace(rest)
  {
    if w == [] {
      assert w + rest == rest;
    } else {
      assert (w + rest)[0] == w[0];
      assert (w + rest)[1..] == w[1..] + rest;
      DashWhitespaceKeepsWord(w[1..], rest);
    }
  }

  /** A topic made only of kept characters loses none of them. */
  lemma SlugOfKeptTopic(topic: string)
    requires forall i :: 0 <= i < |topic| ==> IsSlugSource(topic[i])
    ensures Slug(topic) == Lower(DashWhitespace(topic))
  {
    assert KeepSlugSource(topic) == topic;
  }

  /** Two words of `\w` characters separated by one space give the two
      words lowercased and joined with `-`. */
  lemma SlugOfTwoWords(w1: string, w2: string)
    requires forall i :: 0 <= i < |w1| ==> IsWordChar(w1[i])
    requires forall i :: 0 <= i < |w2| ==> IsWordChar(w2[i])
    ensures Slug(w1 + " " + w2) == Lower(w1) + "-" + Lower(w2)
  {
    var topic := w1 + " " + w2;
    assert forall i :: 0 <= i < |topic| ==> IsSlugSource(topic[i]) by {
      forall i | 0 <= i < |topic| ensures IsSlugSource(topic[i]) {
        if i < |w1| {
          assert topic[i] == w1[i];
        } else if i > |w1| {
          assert topic[i] == w2[i - |w1| - 1];
        }
      }
    }
    assert Slug(topic) == Lower(w1 + "-" + w2) by {
      SlugOfKeptTopic(topic);
      TwoWordsDashed(w1, w2);
    }
    assert Lower(w1 + "-" + w2) == Lower(w1) + "-" + Lower(w2) by {
      LowerAppend(w1 + "-", w2);
      LowerAppend(w1, "-");
      assert Lower("-") == "-";
    }
  }

  lemma TwoWordsDashed(w1: string, w2: string)
    requires NoWhitespace(w1) && NoWhitespace(w2)
    ensures DashWhitespace(w1 + " " + w2) == w1 + "-" + w2
  {
    assert w1 + " " + w2 == w1 + (" " + w2);
    DashWhitespaceKeepsWord(w1, " " + w2);
    DashLeadingSpace(w2);
    assert w1 + ("-" + w2) == w1 + "-" + w2;
  }

  lemma DashLeadingSpace(w: string)
    requires NoWhitespace(w)
    ensures DashWhitespace(" " + w) == "-" + w
  {
    var t := " " + w;
    assert TrimStart(t) == w by {
      assert t[0] == ' ' && t[1..] == w;
      TrimStartSkips([' '], w);
    }
    assert DashWhitespace(w) == w by {
      DashWhitespaceKeepsWord(w, []);
      assert w + [] == w;
    }
    DashRun(t);
  }

  lemma DashRun(s: string)
    requires s != [] && IsWhitespace(s[0])
    ensures DashWhitespace(s) == "-" + DashWhitespace(TrimStart(s))
  {
  }

  /** The slug of the topic "Mumbai Rain". */
  lemma SlugOfMumbaiRain()
    ensures Slug("Mumbai Rain") == "mumbai-rain"
  {
    assert Lower("Mumbai") == "mumbai" by {
      assert |Lower("Mumbai")| == 6;
    }
    assert Lower("Rain") == "rain" by {
      assert |Lower("Rain")| == 4;
    }
    assert "Mumbai" + " " + "Rain" == "Mumbai Rain";
    assert "mumbai" + "-" + "rain" == "mumbai-rain";
    SlugOfTwoWords("Mumbai", "Rain");
  }

  /** A topic written only in Devanagari (U+0900 to U+097F) gives an empty
      slug, so its file name starts with `-`. */
  lemma DevanagariSlugIsEmpty(topic: string)
    requires forall i :: 0 <= i < |topic| ==> 0x0900 <= topic[i] as int <= 0x097F
    ensures Slug(topic) == []
  {
    assert forall i :: 0 <= i < |topic| ==> !IsSlugSource(topic[i]);
  }

  /** `${slug}-${new Date().getTime()}.txt`, with the clock reading `time`
      as an input. */
  function DownloadName(topic: string, time: nat): (r: string)
    ensures |r| > |Slug(topic)| + 5
    ensures r[..|Slug(topic)|] == Slug(topic) && r[|Slug(topic)|] == '-'
    ensures r[|r| - 4..] == ".txt"
    ensures r[|Slug(topic)| + 1..|r| - 4] == NatToString(time)
    ensures ParseInt(r[|Slug(topic)| + 1..|r| - 4]) == Some(time)
    ensures NoWhitespace(r)
    ensures forall i :: 0 <= i < |r| ==> IsSlugChar(r[i]) || r[i] == '.'
  {
    NameFacts(Slug(topic), time);
    Slug(topic) + ['-'] + NatToString(time) + ".txt"
  }

  /** The file name laid out from a slug and a clock reading: the slug, a
      `-`, the reading in decimal (readable back by `parseInt`) and `.txt`,
      with nothing but slug characters and `.`. */
  lemma NameFacts(slug: string, time: nat)
    requires forall i :: 0 <= i < |slug| ==> IsSlugChar(slug[i])
    ensures var r := slug + ['-'] + NatToString(time) + ".txt";
      && |r| > |slug| + 5
      && r[..|slug|] == slug && r[|slug|] == '-'
      && r[|r| - 4..] == ".txt"
      && r[|slug| + 1..|r| - 4] == NatToString(time)
      && ParseInt(r[|slug| + 1..|r| - 4]) == Some(time)
      && NoWhitespace(r)
      && forall i :: 0 <= i < |r| ==> IsSlugChar(r[i]) || r[i] == '.'
  {
    var digits := NatToString(time);
    NameChars(slug, digits);
    var r := slug + ['-'] + digits + ".txt";
    assert r[|slug| + 1..|r| - 4] == digits;
    ParseIntReadsDecimal(time);
  }

  lemma NameChars(slug: string, digits: string)
    requires forall i :: 0 <= i < |slug| ==> IsSlugChar(slug[i])
    requires forall i :: 0 <= i < |digits| ==> IsDigit(digits[i])
    ensures var r := slug + ['-'] + digits + ".txt";
      forall i :: 0 <= i < |r| ==> (IsSlugChar(r[i]) || r[i] == '.') && !IsWhitespace(r[i])
  {
    var r := slug + ['-'] + digits + ".txt";
    forall i | 0 <= i < |r| ensures (IsSlugChar(r[i]) || r[i] == '.') && !IsWhitespace(r[i]) {
      if i < |slug| {
        assert r[i] == slug[i];
      } else if |slug| < i < |slug| + 1 + |digits| {
        assert r[i] == digits[i - |slug| - 1];
      } else if i >= |slug| + 1 + |digits| {
        assert r[i] == ".txt"[i - |slug| - 1 - |digits|];
      }
    }
  }

  /** `article.slice(0, 200) + '...'`: the first 200 characters (all of a
      shorter article) followed by `...`. */
  function ShareText(article: string): (r: string)
    ensures |r| <= 203 && |r| >= 3
    ensures r[..|r| - 3] <= article && r[|r| - 3..] == "..."
    ensures |article| <= 200 ==> r == article + "..."
    ensures |article| > 200 ==> |r| == 203
  {
    (if |article| <= 200 then article else article[..200]) + "..."
  }

  /** What `navigator.share` is given. */
  datatype SharePayload = SharePayload(title: string, text: string, url: string)

  /** The share payload for the shown result, `None` when there is no
      article data; `url` is the page address. */
  function ShareOf(result: Option<ApiResponse>, url: string): (r: Option<SharePayload>)
    ensures r.Some? <==> result.Some? && result.value.data.Some?
    ensures r.Some? ==> r.value.title == result.value.data.value.topic
    ensures r.Some? ==> r.value.text == ShareText(result.value.data.value.article)
    ensures r.Some? ==> r.value.url == url
  {
    if result.Some? && result.value.data.Some? then
      Some(SharePayload(result.value.data.value.topic, ShareText(result.value.data.value.article), url))
    else None
  }

  /** A file the download button produces. */
  datatype Download = Download(name: string, contents: string)

  /** `handleDownload`: a file only when the result has data; it holds the
      article and is named after the topic and the clock reading `time`. */
  function DownloadOf(result: Option<ApiResponse>, time: nat): (r: Option<Download>)
    ensures r.Some? <==> result.Some? && result.value.data.Some?
    ensures r.Some? ==> r.value.contents == result.value.data.value.article
    ensures r.Some? ==> r.value.name == DownloadName(result.value.data.value.topic, time)
  {
    if result.Some? && result.value.data.Some? then
      Some(Download(DownloadName(result.value.data.value.topic, time), result.value.data.value.article))
    else None
  }

  /** The views of the panel. */
  datatype View = Placeholder | Generating | ErrorView(message: string) | ArticleView(data: ResultData) | Empty

  /** The error string is truthy. */
  predicate ErrorShown(error: Option<string>) {
    error.Some? && error.value != []
  }

  /** The nested condition choosing the panel's view. */
  function SelectView(result: Option<ApiResponse>, isSubmitting: bool, error: Option<string>): View {
    if result == None && !isSubmitting && !ErrorShown(error) then Placeholder
    else if isSubmitting then Generating
    else if ErrorShown(error) then ErrorView(error.value)
    else if result.Some? && result.value.data.Some? then ArticleView(result.value.data.value)
    else Empty
  }

  /** The placeholder shows exactly when there is no result, no generation
      runs and no error; a running generation hides an error, and an error
      hides a result. */
  lemma ViewPrecedence(result: Option<ApiResponse>, isSubmitting: bool, error: Option<string>)
    ensures SelectView(result, isSubmitting, error) == Placeholder <==>
      result == None && !isSubmitting && !ErrorShown(error)
    ensures isSubmitting ==> SelectView(result, isSubmitting, error) == Generating
    ensures !isSubmitting && ErrorShown(error) ==> SelectView(result, isSubmitting, error) == ErrorView(error.value)
    ensures SelectView(result, isSubmitting, error).ArticleView? <==>
      !isSubmitting && !ErrorShown(error) && result.Some? && result.value.data.Some?
  {
  }

  /** How `navigator.share` ended: it is missing, it shared, or it threw an
      error with the given name. */
  datatype ShareOutcome = Unsupported | Shared | Threw(name: string)

  /** The panel's `copied` flag and what it wrote to the clipboard. */
  class Preview {
    var copied: bool
    ghost var clipboard: seq<string>

    constructor ()
      ensures !copied && clipboard == []
    {
      copied := false;
      clipboard := [];
    }

    /** `handleCopy`: only a non-empty article is copied, and then the
        button shows "Copied!". */
    method Copy(result: Option<ApiResponse>)
      modifies this
      ensures var acts := result.Some? && result.value.data.Some? && result.value.data.value.article != [];
        && (acts ==> copied && clipboard == old(clipboard) + [result.value.data.value.article])
        && (!acts ==> copied == old(copied) && clipboard == old(clipboard))
    {
      if result.Some? && result.value.data.Some? && result.value.data.value.article != [] {
        clipboard := clipboard + [result.value.data.value.article];
        copied := true;
      }
    }

    /** The timer two seconds after a copy resets the flag. */
    method CopyExpired()
      modifies this
      ensures !copied && clipboard == old(clipboard)
    {
      copied := false;
    }

    /** `handleShare`: nothing without article data; without
        `navigator.share`, and when sharing fails other than by the user
        cancelling (`AbortError`), the article is copied instead. */
    method Share(result: Option<ApiResponse>, outcome: ShareOutcome)
      modifies this
      ensures var data := result.Some? && result.value.data.Some?;
        var fallback := data && (outcome.Unsupported? || (outcome.Threw? && outcome.name != "AbortError"));
        && (fallback && result.value.data.value.article != [] ==>
              copied && clipboard == old(clipboard) + [result.value.data.value.article])
        && (!(fallback && result.value.data.value.article != []) ==>
              copied == old(copied) && clipboard == old(clipboard))
    {
      if !(result.Some? && result.value.data.Some?) {
        return;
      }
      match outcome {
        case Unsupported =>
          Copy(result);
        case Shared =>
        case Threw(name) =>
          if name != "AbortError" {
            Copy(result);
          }
      }
    }
  }
}
