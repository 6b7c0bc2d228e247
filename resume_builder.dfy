/** The non-rendering helpers of views/resume_builder.py: cleaning the
    student id a version is saved under, checking the resume data before
    it is saved, mapping a major's display name to its key, turning a
    multi-line text area into a list of lines, the panel buttons, and the
    list edits on the resume data (`cv_data`).

    Streamlit's widgets are inputs: a button is a boolean saying whether
    it was pressed in this run, a text area is its text. `json.dumps` is a
    parameter. */
module ResumeBuilder {
  import opened Common

  // -----------------------------------------------------------------------
  // Student ids

  /** The characters `re.sub(r'[^a-zA-Z0-9_]', '', s)` keeps, in order. */
  function WordChars(s: string): (r: string)
    ensures |r| <= |s|
    ensures forall i :: 0 <= i < |r| ==> IsWordChar(r[i])
  {
    if s == [] then []
    else (if IsWordChar(s[0]) then [s[0]] else []) + WordChars(s[1..])
  }

  /** `_sanitize_student_id`: the kept characters, at most 50 of them. */
  function SanitizeStudentId(s: string): (r: string)
    ensures |r| <= 50
    ensures forall i :: 0 <= i < |r| ==> IsWordChar(r[i])
  {
    var w := WordChars(s);
    if |w| <= 50 then w else w[..50]
  }

  /** A string of word characters keeps all of them. */
  lemma {:induction false} WordCharsFixed(s: string)
    requires forall i :: 0 <= i < |s| ==> IsWordChar(s[i])
    ensures WordChars(s) == s
  {
    if s != [] {
      WordCharsFixed(s[1..]);
      assert [s[0]] + s[1..] == s;
    }
  }

  /** The cleaned id is the longest prefix of at most 50 of the kept
      characters, and cleaning it again changes nothing. */
  lemma SanitizeStudentIdIdempotent(s: string)
    ensures var r := SanitizeStudentId(s);
      && r == WordChars(s)[..|r|]
      && |r| == Min(|WordChars(s)|, 50)
      && SanitizeStudentId(r) == r
  {
    var r := SanitizeStudentId(s);
    WordCharsFixed(r);
  }

  /** An id already made of at most 50 word characters is kept as it is. */
  lemma SanitizeKeepsCleanId(s: string)
    requires |s| <= 50 && forall i :: 0 <= i < |s| ==> IsWordChar(s[i])
    ensures SanitizeStudentId(s) == s
  {
    WordCharsFixed(s);
  }

  // -----------------------------------------------------------------------
  // Saving a version

  /** `_validate_json_data`: only a dictionary whose serialisation is at
      most 100000 characters long is accepted. */
  predicate ValidateJsonData(data: JsonValue, dumps: JsonValue -> string) {
    data.JObj? && |dumps(data)| <= 100000
  }

  /** What the save button of `_render_save_section` does. */
  datatype SaveAction = WarnInvalidId | RejectData | SaveVersion(studentId: string)

  function SaveDecision(saveId: string, data: JsonValue, dumps: JsonValue -> string): SaveAction {
    var sanitized := SanitizeStudentId(saveId);
    if sanitized == "" then WarnInvalidId
    else if !ValidateJsonData(data, dumps) then RejectData
    else SaveVersion(sanitized)
  }

  /** A version is saved exactly when the cleaned id is not empty and the
      data is a dictionary of at most 100000 serialised characters; it is
      saved under the cleaned id, which holds no path separator or dot. An
      empty cleaned id only warns, whatever the data. */
  lemma SaveDecisionIff(saveId: string, data: JsonValue, dumps: JsonValue -> string)
    ensures SaveDecision(saveId, data, dumps).SaveVersion? <==>
      SanitizeStudentId(saveId) != "" && data.JObj? && |dumps(data)| <= 100000
    ensures SanitizeStudentId(saveId) == "" ==> SaveDecision(saveId, data, dumps) == WarnInvalidId
    ensures SaveDecision(saveId, data, dumps).SaveVersion? ==>
      var id := SaveDecision(saveId, data, dumps).studentId;
      && id == SanitizeStudentId(saveId) && 1 <= |id| <= 50
      && '/' !in id && '\\' !in id && '.' !in id
  {
    var id := SanitizeStudentId(saveId);
    forall i | 0 <= i < |id| ensures id[i] != '/' && id[i] != '\\' && id[i] != '.' {
      assert IsWordChar(id[i]);
    }
  }

  // -----------------------------------------------------------------------
  // Majors

  /** `_get_major_key`: the four display names map to their keys, every
      other name to "journalism". */
  function GetMajorKey(displayName: string): (key: string)
    ensures key in {"journalism", "advertising", "new_media", "broadcasting"}
  {
    if displayName == "新闻学" then "journalism"
    else if displayName == "广告学" then "advertising"
    else if displayName == "网络与新媒体" then "new_media"
    else if displayName == "广播电视学" then "broadcasting"
    else "journalism"
  }

  /** The display name of a major key. */
  function DisplayName(key: string): string {
    if key == "advertising" then "广告学"
    else if key == "new_media" then "网络与新媒体"
    else if key == "broadcasting" then "广播电视学"
    else "新闻学"
  }

  /** Every key is the key of its display name, and a name that is not one
      of the four maps to "journalism". */
  lemma MajorKeyRoundTrip(key: string, name: string)
    requires key in {"journalism", "advertising", "new_media", "broadcasting"}
    ensures GetMajorKey(DisplayName(key)) == key
    ensures name !in {"新闻学", "广告学", "网络与新媒体", "广播电视学"} ==> GetMajorKey(name) == "journalism"
  {
  }

  // -----------------------------------------------------------------------
  // Multi-line text areas

  /** The stripped, non-empty parts of a list of parts, in order. */
  function KeepNonBlank(parts: seq<string>): (r: seq<string>)
    ensures |r| <= |parts|
  {
    if parts == [] then []
    else (if Strip(parts[0]) != "" then [Strip(parts[0])] else []) + KeepNonBlank(parts[1..])
  }

  /** `[d.strip() for d in text.split('\n') if d.strip()]`. */
  function ParseLines(text: string): seq<string> {
    KeepNonBlank(Split(text, '\n'))
  }

  /** A line a text area can give back: not empty, already stripped and
      without a newline. */
  predicate CleanLine(line: string) {
    line != "" && Strip(line) == line && '\n' !in line
  }

  /** Every parsed line is clean. */
  lemma {:induction false} KeepNonBlankClean(parts: seq<string>)
    requires forall k :: 0 <= k < |parts| ==> '\n' !in parts[k]
    ensures forall k :: 0 <= k < |KeepNonBlank(parts)| ==> CleanLine(KeepNonBlank(parts)[k])
  {
    if parts != [] {
      var tail := parts[1..];
      assert forall k :: 0 <= k < |tail| ==> tail[k] == parts[k + 1];
      KeepNonBlankClean(tail);
      var line := Strip(parts[0]);
      if line != "" {
        StripLine(parts[0]);
        assert CleanLine(line);
        assert KeepNonBlank(parts) == [line] + KeepNonBlank(tail);
        AllCleanCons(line, KeepNonBlank(tail));
      } else {
        assert KeepNonBlank(parts) == KeepNonBlank(tail);
      }
    }
  }

  /** A clean line in front of clean lines. */
  lemma AllCleanCons(line: string, lines: seq<string>)
    requires CleanLine(line)
    requires forall k :: 0 <= k < |lines| ==> CleanLine(lines[k])
    ensures forall k :: 0 <= k < |[line] + lines| ==> CleanLine(([line] + lines)[k])
  {
    forall k | 0 <= k < |[line] + lines| ensures CleanLine(([line] + lines)[k]) {
      if k > 0 {
        assert ([line] + lines)[k] == lines[k - 1];
      }
    }
  }

  /** Clean lines are kept as they are. */
  lemma {:induction false} KeepNonBlankOfClean(lines: seq<string>)
    requires forall k :: 0 <= k < |lines| ==> CleanLine(lines[k])
    ensures KeepNonBlank(lines) == lines
  {
    if lines != [] {
      KeepNonBlankOfClean(lines[1..]);
      assert [lines[0]] + lines[1..] == lines;
    }
  }

  /** Stripping a line without a newline leaves none, and a stripped
      part is its own strip. */
  lemma StripLine(p: string)
    requires '\n' !in p
    ensures '\n' !in Strip(p) && Strip(Strip(p)) == Strip(p)
  {
    var l := StripLeft(p);
    var r := Strip(p);
    forall i | 0 <= i < |r| ensures r[i] != '\n' {
      assert r[i] == l[i] == p[|p| - |l| + i];
    }
    StripIdempotent(p);
  }

  /** The editor round trip: the lines shown joined by newlines parse back
      to themselves. */
  lemma ParseJoinedLines(lines: seq<string>)
    requires forall k :: 0 <= k < |lines| ==> CleanLine(lines[k])
    ensures ParseLines(Join(lines, '\n')) == lines
  {
    if lines == [] {
      assert Split("", '\n') == [[]];
      assert KeepNonBlank([[]]) == [] + KeepNonBlank([]);
    } else {
      SplitJoin(lines, '\n');
      KeepNonBlankOfClean(lines);
    }
  }

  /** Parsed lines are clean, so showing and parsing them again gives the
      same list. */
  lemma ParseLinesStable(text: string)
    ensures forall k :: 0 <= k < |ParseLines(text)| ==> CleanLine(ParseLines(text)[k])
    ensures ParseLines(Join(ParseLines(text), '\n')) == ParseLines(text)
  {
    KeepNonBlankClean(Split(text, '\n'));
    ParseJoinedLines(ParseLines(text));
  }

  // -----------------------------------------------------------------------
  // Panel buttons

  /** One `if btn:` of the panel logic: a pressed button shows its panel,
      or hides it when it is already shown. */
  function Press(shown: Option<string>, pressed: bool, name: string): (r: Option<string>)
    ensures !pressed ==> r == shown
    ensures pressed ==> (r == Some(name) <==> shown != Some(name)) && (r == None <==> shown == Some(name))
  {
    if !pressed then shown else if shown != Some(name) then Some(name) else None
  }

  /** Pressing the same button in two runs shows its panel again exactly
      when it was shown to begin with. */
  lemma PressTwice(shown: Option<string>, name: string)
    ensures Press(Press(shown, true, name), true, name) == (if shown == Some(name) then Some(name) else None)
  {
  }

  /** After the three buttons of a run, the panel shown is none or that of
      the last pressed button; with no button pressed nothing changes. */
  lemma {:induction false} ThreeButtons(shown: Option<string>, p1: bool, n1: string, p2: bool, n2: string, p3: bool, n3: string)
    ensures var r := Press(Press(Press(shown, p1, n1), p2, n2), p3, n3);
      && (!p1 && !p2 && !p3 ==> r == shown)
      && (p3 ==> r == None || r == Some(n3))
      && (!p3 && p2 ==> r == None || r == Some(n2))
      && (!p3 && !p2 && p1 ==> r == None || r == Some(n1))
  {
  }

  /** The panel state of the page: `show_panel` of the AI mode and
      `json_panel` of the JSON editor mode. */
  class Panels {
    var showPanel: Option<string>
    var jsonPanel: Option<string>

    /** Both panels start hidden. */
    constructor ()
      ensures showPanel == None && jsonPanel == None
    {
      showPanel := None;
      jsonPanel := None;
    }

    /** The buttons of the AI mode, applied in the order style, save,
        help. */
    method AiModeButtons(styleBtn: bool, saveBtn: bool, helpBtn: bool)
      modifies this
      ensures showPanel == Press(Press(Press(old(showPanel), styleBtn, "style"), saveBtn, "save"), helpBtn, "help")
      ensures jsonPanel == old(jsonPanel)
    {
      if styleBtn {
        showPanel := if showPanel != Some("style") then Some("style") else None;
      }
      if saveBtn {
        showPanel := if showPanel != Some("save") then Some("save") else None;
      }
      if helpBtn {
        showPanel := if showPanel != Some("help") then Some("help") else None;
      }
    }

    /** The buttons of the JSON editor mode, applied in the order style,
        load, save. */
    method JsonModeButtons(styleBtn: bool, loadBtn: bool, saveBtn: bool)
      modifies this
      ensures jsonPanel == Press(Press(Press(old(jsonPanel), styleBtn, "style"), loadBtn, "load"), saveBtn, "save")
      ensures showPanel == old(showPanel)
    {
      if styleBtn {
        jsonPanel := if jsonPanel != Some("style") then Some("style") else None;
      }
      if loadBtn {
        jsonPanel := if jsonPanel != Some("load") then Some("load") else None;
      }
      if saveBtn {
        jsonPanel := if jsonPanel != Some("save") then Some("save") else None;
      }
    }
  }

  // -----------------------------------------------------------------------
  // List edits on the resume data

  /** The entry the add button appends to `experience`. */
  function ExperiencePlaceholder(): JsonValue {
    JObj(map["company" := JStr("待填写"), "role" := JStr("待填写"), "time" := JStr("待填写"),
             "details" := JArr([JStr("待填写")])])
  }

  /** The entry the add button appends to `portfolio`. */
  function PortfolioPlaceholder(): JsonValue {
    JObj(map["title" := JStr("待填写"), "role" := JStr("待填写"), "link" := JStr(""), "desc" := JStr("待填写")])
  }

  /** The list `section` of the resume data, when it is one. */
  function Entries(data: Dict, section: string): Option<seq<JsonValue>> {
    if section in data && data[section].JArr? then Some(data[section].items) else None
  }

  /** `seq.pop(i)` as a function. */
  function RemoveAt(xs: seq<JsonValue>, i: nat): (r: seq<JsonValue>)
    requires i < |xs|
    ensures |r| == |xs| - 1
    ensures forall k :: 0 <= k < i ==> r[k] == xs[k]
    ensures forall k :: i <= k < |r| ==> r[k] == xs[k + 1]
  {
    xs[..i] + xs[i + 1..]
  }

  /** Removing the entry just appended gives the list back. */
  lemma RemoveAppended(xs: seq<JsonValue>, x: JsonValue)
    ensures RemoveAt(xs + [x], |xs|) == xs
  {
    assert (xs + [x])[..|xs|] == xs;
  }

  /** The resume data being edited, `st.session_state.cv_data`. */
  class CvEditor {
    var data: Dict

    constructor (initial: Dict)
      ensures data == initial
    {
      data := initial;
    }

    /** A delete button: `cv_data[section].pop(i)` on the list whose
        entries are shown, removing exactly its `i`-th entry. */
    method PopEntry(section: string, i: nat)
      requires Entries(data, section).Some? && i < |Entries(data, section).value|
      modifies this
      ensures data == old(data)[section := JArr(RemoveAt(Entries(old(data), section).value, i))]
    {
      var items := data[section].items;
      data := data[section := JArr(items[..i] + items[i + 1..])];
    }

    /** An add button: `cv_data.setdefault(section, []).append(entry)`.
        It appends the entry at the end of the list, creating the list when
        the key is missing; a value that is not a list has no `append`,
        which raises (`ok` false) and changes nothing. */
    method AppendEntry(section: string, entry: JsonValue) returns (ok: bool)
      modifies this
      ensures ok <==> section !in old(data) || old(data)[section].JArr?
      ensures ok ==> data == old(data)[section := JArr(OrEmpty(Entries(old(data), section)) + [entry])]
      ensures !ok ==> data == old(data)
    {
      if section !in data {
        data := data[section := JArr([])];
      }
      if !data[section].JArr? {
        return false;
      }
      data := data[section := JArr(data[section].items + [entry])];
      return true;
    }
  }

  function OrEmpty(o: Option<seq<JsonValue>>): seq<JsonValue> {
    match o
    case Some(xs) => xs
    case None => []
  }

  /** Adding a placeholder and deleting it again restores the list. */
  lemma AddThenDelete(data: Dict, section: string, entry: JsonValue)
    requires Entries(data, section).Some?
    ensures var added := data[section := JArr(Entries(data, section).value + [entry])];
      var xs := Entries(data, section).value;
      && Entries(added, section) == Some(xs + [entry])
      && added[section := JArr(RemoveAt(xs + [entry], |xs|))] == data
  {
    var xs := Entries(data, section).value;
    RemoveAppended(xs, entry);
    assert data[section] == JArr(xs);
  }
}
