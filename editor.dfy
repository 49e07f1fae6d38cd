/** The two pure rules of the editor pane (`src/components/Editor.tsx`): text direction and download name. */
module Editor {
  import opened Errors
  import opened Paths

  /** A code unit in U+0591–U+07FF, U+FB1D–U+FDFD or U+FE70–U+FEFC (Hebrew, Arabic, Syriac, Thaana, N'Ko and their presentation forms). */
  predicate IsRtlChar(c: char)
  {
    (0x591 <= c as int <= 0x7FF) || (0xFB1D <= c as int <= 0xFDFD) || (0xFE70 <= c as int <= 0xFEFC)
  }

  /** `rtlRegex.test(text)`: some character of `text` is in one of the right-to-left ranges. */
  function HasRtl(text: string): (r: bool)
    ensures r <==> exists i :: 0 <= i < |text| && IsRtlChar(text[i])
  {
    if text == [] then false
    else if IsRtlChar(text[0]) then true
    else
      var rest := HasRtl(text[1..]);
      assert forall i :: 1 <= i < |text| ==> text[i] == text[1..][i - 1];
      rest
  }

  /** `getDirection`. */
  function GetDirection(text: string): (r: string)
    ensures r == "rtl" || r == "ltr"
    ensures r == "rtl" <==> exists i :: 0 <= i < |text| && IsRtlChar(text[i])
  {
    if HasRtl(text) then "rtl" else "ltr"
  }

  /** An empty document is laid out left to right. */
  lemma EmptyIsLtr()
    ensures GetDirection("") == "ltr"
  {
  }

  /** Right-to-left text stays right-to-left whatever is written before or after it. */
  lemma {:induction false} RtlSurvivesConcatenation(s: string, t: string)
    requires GetDirection(s) == "rtl"
    ensures GetDirection(s + t) == "rtl"
    ensures GetDirection(t + s) == "rtl"
  {
    var i :| 0 <= i < |s| && IsRtlChar(s[i]);
    assert (s + t)[i] == s[i];
    assert (t + s)[|t| + i] == s[i];
  }

  /** `s.split("/").pop()` is empty exactly when `s` is empty or ends with "/". */
  lemma {:induction false} LastSegmentEmpty(s: string)
    ensures LastSegment(s) == "" <==> s == "" || s[|s| - 1] == '/'
  {
    LastSegmentIsSuffix(s);
    if s != "" && s[|s| - 1] == '/' {
      var a := s[..|s| - 1];
      assert s == a + "/" + "";
      SplitAtSlash(a, "");
      assert Split("") == [""];
    }
  }

  /** `path?.split("/").pop() || "document.md"`: the file's own name, or "document.md" when there is none. */
  function DownloadName(path: Option<string>): (r: string)
    ensures r != "" && '/' !in r
    ensures path == None || path.value == "" || path.value[|path.value| - 1] == '/' ==> r == "document.md"
    ensures path.Some? && path.value != "" && path.value[|path.value| - 1] != '/' ==>
      var s := path.value;
      |r| <= |s| && s[|s| - |r|..] == r && (|r| == |s| || s[|s| - |r| - 1] == '/')
  {
    match path
    case None => "document.md"
    case Some(s) =>
      LastSegmentEmpty(s);
      LastSegmentIsSuffix(s);
      var last := LastSegment(s);
      if last == "" then "document.md" else last
  }
}
