/** Reading the list of product URLs (`load_urls`): every line of the URL
    file is stripped and blank lines are dropped; a missing file gives no URLs;
    any other failure to read the file escapes and ends the run. */
module Urls {
  import opened Text

  /** The URL file as the program finds it: absent, present but unreadable
      (no permission, undecodable bytes), or its lines in order. */
  datatype UrlFile = Missing | Unreadable | Lines(lines: seq<string>)

  /** The result of `load_urls`: the URLs, or an exception it does not catch. */
  datatype Loaded = Loaded(urls: seq<string>) | Raises

  /** The comprehension over the file's lines: each line stripped, the lines
      that strip to nothing left out. */
  function NonBlankStripped(lines: seq<string>): (urls: seq<string>)
    ensures |urls| <= |lines|
    ensures forall k | 0 <= k < |urls| :: urls[k] != [] && IsStripped(urls[k])
  {
    if lines == [] then []
    else
      var head := Strip(lines[0]);
      (if head != [] then [head] else []) + NonBlankStripped(lines[1..])
  }

  /** `load_urls`: the stripped non-blank lines of the file, nothing when
      the file is missing, and an escaping exception for any other read error. */
  function LoadUrls(file: UrlFile): (r: Loaded)
    ensures r.Raises? <==> file.Unreadable?
    ensures file.Missing? ==> r == Loaded([])
    ensures file.Lines? ==> |r.urls| <= |file.lines|
    ensures r.Loaded? ==> forall k | 0 <= k < |r.urls| :: r.urls[k] != [] && IsStripped(r.urls[k])
  {
    match file
    case Missing => Loaded([])
    case Unreadable => Raises
    case Lines(lines) => Loaded(NonBlankStripped(lines))
  }

  /** The filter works line by line: the URLs of two consecutive stretches of
      the file are the URLs of the first followed by those of the second. */
  lemma {:induction false} NonBlankStrippedAppend(a: seq<string>, b: seq<string>)
    ensures NonBlankStripped(a + b) == NonBlankStripped(a) + NonBlankStripped(b)
  {
    if a == [] {
      assert a + b == b;
    } else {
      assert (a + b)[0] == a[0];
      assert (a + b)[1..] == a[1..] + b;
      NonBlankStrippedAppend(a[1..], b);
    }
  }

  /** One line contributes its stripped text exactly when that text is not empty. */
  lemma NonBlankStrippedLine(line: string)
    ensures NonBlankStripped([line]) == if Strip(line) != [] then [Strip(line)] else []
  {
    assert [line][1..] == [];
  }

  /** A string is among the URLs exactly when it is the non-empty strip of
      some line of the file. */
  lemma {:induction false} NonBlankStrippedMember(lines: seq<string>, u: string)
    ensures u in NonBlankStripped(lines) <==>
            u != [] && exists i :: 0 <= i < |lines| && Strip(lines[i]) == u
  {
    if lines != [] {
      NonBlankStrippedMember(lines[1..], u);
      if exists i :: 0 <= i < |lines[1..]| && Strip(lines[1..][i]) == u {
        var i :| 0 <= i < |lines[1..]| && Strip(lines[1..][i]) == u;
        assert Strip(lines[i + 1]) == u;
      }
      if exists i :: 0 <= i < |lines| && Strip(lines[i]) == u {
        var i :| 0 <= i < |lines| && Strip(lines[i]) == u;
        if i > 0 {
          assert Strip(lines[1..][i - 1]) == u;
        }
      }
    }
  }
}
