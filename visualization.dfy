/** The fixed markup of the analysis note written by src/utils/visualization.py:26-69. */
module ReportMarkup {
  /** The text around each of the caller's values in the note. */
  datatype Markup = Markup(
    titleBefore: string, titleAfter: string,
    itemBefore: string, itemAfter: string,
    highlightsBefore: string, highlightsAfter: string,
    noteOpen: string, beforePurpose: string, beforeExpectation: string,
    beforeEvaluation: string, afterEvaluation: string, noteClose: string)

  /** The markup the source writes, character for character. */
  const Source: Markup := Markup(
    "\n        <div style=\"margin-bottom: 20px; padding-bottom: 10px; border-bottom: 2px solid #007bff;\">\n            <h2 style=\"margin: 0; color: #333;\">🏷️ ",
    "</h2>\n        </div>\n        ",
    "<li style='margin-bottom: 5px;'>",
    "</li>",
    "\n        <div style=\"margin-top: 15px; padding-top: 15px; border-top: 1px dashed #ccc;\">\n            <strong>✨ 結果のハイライト (Highlights):</strong>\n            <ul style=\"margin: 5px 0 0 20px; color: #333; padding-left: 20px;\">\n                ",
    "\n            </ul>\n        </div>\n        ",
    "\n    <div style=\"margin: 20px; padding: 20px; background-color: #f8f9fa; border-left: 5px solid #007bff; border-radius: 4px; font-family: sans-serif;\">\n        ",
    "\n        <h3 style=\"margin-top: 0; color: #007bff;\">📊 分析レポート</h3>\n        <div style=\"margin-bottom: 15px;\">\n            <strong>🎯 目的 (Purpose):</strong>\n            <p style=\"margin: 5px 0 0 10px; color: #333;\">",
    "</p>\n        </div>\n        <div style=\"margin-bottom: 15px;\">\n            <strong>🔭 期待 (Expectation):</strong>\n            <p style=\"margin: 5px 0 0 10px; color: #333;\">",
    "</p>\n        </div>\n        <div>\n            <strong>🧐 評価基準 (Evaluation Criteria):</strong>\n            <p style=\"margin: 5px 0 0 10px; color: #333;\">",
    "</p>\n        </div>\n        ",
    "\n        <div style=\"margin-top: 15px; font-size: 0.8em; color: #888;\">\n            ※ 不明な点はオーナーに確認すること\n        </div>\n    </div>\n    ")

  /** The title and highlights sections of the source open with markup. */
  lemma SourceOpeningsNonEmpty()
    ensures Source.titleBefore != "" && Source.highlightsBefore != ""
  {
    assert |Source.titleBefore| > 0;
    assert |Source.highlightsBefore| > 0;
  }
}

/** Appending an analysis note to an HTML report (src/utils/visualization.py:13-80): the
    note is assembled from fixed markup around the caller's texts, with a title section only
    for a non-empty title and a highlights section only for a non-empty list, and is
    inserted right after the first `<body>` of the page, or in front of it when there is
    none. The file system is a map from path to contents. The note is built over any
    markup; the source's own is `ReportMarkup.Source`. */
module Visualization {
  import opened Wrappers
  import opened ReportMarkup

  const BodyTag := "<body>"

  /** Python truthiness of `summary_title`: present and non-empty. */
  predicate IsTruthy(title: Option<string>) {
    title.Some? && title.value != ""
  }

  /** `highlights and isinstance(highlights, list) and len(highlights) > 0`, for a list or
      `None`. */
  predicate HasHighlights(highlights: Option<seq<string>>) {
    highlights.Some? && |highlights.value| > 0
  }

  /** `title_html`. */
  function TitleSection(m: Markup, title: Option<string>): string {
    if IsTruthy(title) then m.titleBefore + title.value + m.titleAfter else ""
  }

  function ListItem(m: Markup, item: string): string {
    m.itemBefore + item + m.itemAfter
  }

  /** `"".join([f"<li ...>{item}</li>" for item in highlights])`. */
  function Items(m: Markup, highlights: seq<string>): string {
    if highlights == [] then "" else ListItem(m, highlights[0]) + Items(m, highlights[1..])
  }

  /** `highlights_html`. */
  function HighlightsSection(m: Markup, highlights: Option<seq<string>>): string {
    if HasHighlights(highlights) then m.highlightsBefore + Items(m, highlights.value) + m.highlightsAfter else ""
  }

  /** `analysis_html`. */
  function Note(m: Markup, purpose: string, expectation: string, evaluation: string,
                highlights: Option<seq<string>>, title: Option<string>): string {
    m.noteOpen + TitleSection(m, title) + m.beforePurpose + purpose + m.beforeExpectation + expectation
    + m.beforeEvaluation + evaluation + m.afterEvaluation + HighlightsSection(m, highlights) + m.noteClose
  }

  /** With markup that opens the section, the title section is there exactly when the
      title is truthy, and then it holds the title right after its opening markup. */
  lemma TitleSectionIffTruthy(m: Markup, title: Option<string>)
    requires m.titleBefore != ""
    ensures TitleSection(m, title) != "" <==> IsTruthy(title)
    ensures IsTruthy(title) ==>
              TitleSection(m, title)[|m.titleBefore|..|m.titleBefore| + |title.value|] == title.value
  {
    if IsTruthy(title) {
      var t := TitleSection(m, title);
      assert t == m.titleBefore + title.value + m.titleAfter;
    }
  }

  /** Likewise the highlights section is there exactly when the list is non-empty. */
  lemma HighlightsSectionIffNonEmpty(m: Markup, highlights: Option<seq<string>>)
    requires m.highlightsBefore != ""
    ensures HighlightsSection(m, highlights) != "" <==> HasHighlights(highlights)
    ensures HasHighlights(highlights) ==>
              HighlightsSection(m, highlights)[|m.highlightsBefore|..|m.highlightsBefore| + |Items(m, highlights.value)|]
              == Items(m, highlights.value)
  {
    if HasHighlights(highlights) {
      var h := HighlightsSection(m, highlights);
      assert h == m.highlightsBefore + Items(m, highlights.value) + m.highlightsAfter;
    }
  }

  lemma {:induction false} ItemsAppend(m: Markup, a: seq<string>, b: seq<string>)
    ensures Items(m, a + b) == Items(m, a) + Items(m, b)
  {
    if a != [] {
      assert (a + b)[1..] == a[1..] + b;
      ItemsAppend(m, a[1..], b);
    } else {
      assert a + b == b;
    }
  }

  /** One list item per highlight, in order: the i-th item follows the items of the
      highlights before it and precedes those of the ones after it. */
  lemma ItemsInOrder(m: Markup, highlights: seq<string>, i: nat)
    requires i < |highlights|
    ensures Items(m, highlights)
            == Items(m, highlights[..i]) + ListItem(m, highlights[i]) + Items(m, highlights[i + 1..])
  {
    assert highlights == highlights[..i] + ([highlights[i]] + highlights[i + 1..]);
    ItemsAppend(m, highlights[..i], [highlights[i]] + highlights[i + 1..]);
    assert ([highlights[i]] + highlights[i + 1..])[1..] == highlights[i + 1..];
  }

  // ---------------------------------------------------------------------------
  // Insertion into the page

  predicate OccursAt(s: string, pattern: string, k: nat) {
    k + |pattern| <= |s| && s[k..k + |pattern|] == pattern
  }

  /** The first position at or after `from` where `pattern` occurs. */
  function FindFrom(s: string, pattern: string, from: nat): (r: Option<nat>)
    requires from <= |s|
    ensures r.Some? ==> from <= r.value && OccursAt(s, pattern, r.value)
    ensures r.Some? ==> forall j :: from <= j < r.value ==> !OccursAt(s, pattern, j)
    ensures r.None? ==> forall j :: from <= j <= |s| ==> !OccursAt(s, pattern, j)
    decreases |s| - from
  {
    if OccursAt(s, pattern, from) then Some(from)
    else if from == |s| then None
    else FindFrom(s, pattern, from + 1)
  }

  /** Where the note goes: right after the first `<body>`, else at the very start. */
  function InsertionPoint(content: string): (at: nat)
    ensures at <= |content|
  {
    match FindFrom(content, BodyTag, 0)
    case Some(k) => k + |BodyTag|
    case None => 0
  }

  /** `content.replace("<body>", "<body>" + note, 1)` when `"<body>" in content`, else
      `note + content`. */
  function InsertNote(content: string, note: string): (r: string)
    ensures r == content[..InsertionPoint(content)] + note + content[InsertionPoint(content)..]
  {
    match FindFrom(content, BodyTag, 0)
    case Some(k) =>
      assert content[..k] + BodyTag == content[..k + |BodyTag|];
      content[..k] + (BodyTag + note) + content[k + |BodyTag|..]
    case None => note + content
  }

  /** With a `<body>` in the page, the note lands right after its first occurrence: the
      page up to and including that tag, and everything after it (later `<body>` tags
      included), is untouched. Without one, the note is prepended. */
  lemma NoteFollowsFirstBody(content: string, note: string)
    ensures var r := InsertNote(content, note);
      match FindFrom(content, BodyTag, 0)
      case Some(k) =>
        && (forall j :: 0 <= j < k ==> !OccursAt(content, BodyTag, j))
        && r[..k + |BodyTag|] == content[..k + |BodyTag|]
        && r[k + |BodyTag|..k + |BodyTag| + |note|] == note
        && r[k + |BodyTag| + |note|..] == content[k + |BodyTag|..]
      case None =>
        && (forall j :: 0 <= j <= |content| ==> !OccursAt(content, BodyTag, j))
        && r == note + content
  {
    var at := InsertionPoint(content);
    var r := InsertNote(content, note);
    assert r[..at] == content[..at];
    assert r[at..at + |note|] == note;
    assert r[at + |note|..] == content[at..];
  }

  /** Cutting the note back out of the page gives back the original page. */
  lemma RemovingNoteRestores(content: string, note: string)
    ensures var at := InsertionPoint(content);
      var r := InsertNote(content, note);
      r[..at] + r[at + |note|..] == content
  {
    var at := InsertionPoint(content);
    var r := InsertNote(content, note);
    assert r[..at] == content[..at];
    assert r[at + |note|..] == content[at..];
  }

  /** `add_analysis_to_html(...)` on a file system, with markup `m` (the source's is
      `ReportMarkup.Source`): a missing file is left missing and no file changes; otherwise
      only that file changes, to its contents with the note inserted. */
  function AddAnalysisToHtml(m: Markup, files: map<string, string>, htmlPath: string, purpose: string,
                             expectation: string, evaluation: string,
                             highlights: Option<seq<string>>, title: Option<string>): (r: map<string, string>)
    ensures htmlPath !in files ==> r == files
    ensures r.Keys == files.Keys
    ensures forall p :: p in files && p != htmlPath ==> r[p] == files[p]
    ensures htmlPath in files ==>
              r[htmlPath] == InsertNote(files[htmlPath], Note(m, purpose, expectation, evaluation, highlights, title))
  {
    if htmlPath !in files then files
    else files[htmlPath := InsertNote(files[htmlPath], Note(m, purpose, expectation, evaluation, highlights, title))]
  }

  /** After the note is added to an existing file, the file holds the whole note at the
      insertion point, and cutting it out gives back what the file held before. */
  lemma AddedNoteIsRemovable(m: Markup, files: map<string, string>, htmlPath: string, purpose: string,
                             expectation: string, evaluation: string,
                             highlights: Option<seq<string>>, title: Option<string>)
    requires htmlPath in files
    ensures var r := AddAnalysisToHtml(m, files, htmlPath, purpose, expectation, evaluation, highlights, title);
      var at := InsertionPoint(files[htmlPath]);
      var note := Note(m, purpose, expectation, evaluation, highlights, title);
      && r[htmlPath][at..at + |note|] == note
      && r[htmlPath][..at] + r[htmlPath][at + |note|..] == files[htmlPath]
  {
    var note := Note(m, purpose, expectation, evaluation, highlights, title);
    NoteFollowsFirstBody(files[htmlPath], note);
    RemovingNoteRestores(files[htmlPath], note);
  }
}
