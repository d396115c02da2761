/**
 * The tab bar of components/PdfTabs.tsx: whether it is shown, whether it offers to add a
 * document, and how a long file name is shortened on a tab.
 */
module PdfTabs {
  import App

  /** The tab bar is only shown with two documents or more. */
  predicate TabBarVisible(documentCount: nat)
  {
    !(documentCount <= 1)
  }

  /** The add button is offered while there is room for another document. */
  predicate CanAddMore(documentCount: nat, maxPdfs: nat)
  {
    documentCount < maxPdfs
  }

  /**
   * String.prototype.substring: both bounds are held to [0, |s|] and swapped if they come in
   * the wrong order.
   */
  function Substring(s: string, start: int, end: int): (r: string)
    ensures 0 <= start <= end <= |s| ==> r == s[start..end]
    ensures start <= 0 ==> r == s[..Bounded(end, |s|)]
    ensures exists i, j :: 0 <= i <= j <= |s| && r == s[i..j]
  {
    var a := Bounded(start, |s|);
    var b := Bounded(end, |s|);
    if a <= b then s[a..b] else s[b..a]
  }

  /** An index argument of substring held to [0, len]. */
  function Bounded(i: int, len: nat): (b: nat)
    ensures b <= len
    ensures 0 <= i <= len ==> b == i
    ensures i < 0 ==> b == 0
    ensures i > len ==> b == len
  {
    if i < 0 then 0 else if i > len then len else i
  }

  const Ellipsis: string := "..."

  /**
   * A file name that fits is shown as it is; a longer one is cut to its first maxLength - 3
   * characters (none at all when maxLength < 3) followed by "...".
   */
  function TruncateFileName(fileName: string, maxLength: int := 15): (r: string)
    ensures |fileName| <= maxLength ==> r == fileName
    ensures |fileName| > maxLength ==>
              && 3 <= |r| <= |fileName| + 3 && r[|r| - 3..] == Ellipsis
              && r[..|r| - 3] == fileName[..|r| - 3]
    ensures |fileName| > maxLength && maxLength >= 3 ==> |r| == maxLength
    ensures |fileName| > maxLength && maxLength < 3 ==> r == Ellipsis
  {
    if |fileName| <= maxLength then fileName
    else Substring(fileName, 0, maxLength - 3) + Ellipsis
  }

  /** Whatever the name, a tab label is never longer than the limit, or than "..." if that is longer. */
  lemma LabelBounded(fileName: string, maxLength: int)
    ensures |TruncateFileName(fileName, maxLength)| <= (if maxLength < 3 then 3 else maxLength)
            || |TruncateFileName(fileName, maxLength)| == |fileName| <= maxLength
  {
  }

  /** With the default limit of 15, a 21-character name keeps its first 12 characters. */
  lemma DefaultLimitExample()
    ensures TruncateFileName("quarterly-report-2024") == "quarterly-re..."
    ensures TruncateFileName("notes") == "notes"
  {
    assert Substring("quarterly-report-2024", 0, 12) == "quarterly-re";
  }

  /**
   * The tabs and the editor agree on the document limit: the add button is offered exactly when
   * the upload handler would accept another file, and while the bar is shown and the limit is
   * respected, that happens only with two documents open.
   */
  lemma AddButtonMatchesUploadGuard(documentCount: nat)
    ensures CanAddMore(documentCount, App.MaxPdfs) <==> App.UploadAllowed(documentCount)
    ensures TabBarVisible(documentCount) && documentCount <= App.MaxPdfs ==>
              (CanAddMore(documentCount, App.MaxPdfs) <==> documentCount == 2)
  {
  }
}
