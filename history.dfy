/**
 * The download history: a text file holding one project URL per line.
 * src/utils.ts reads it with `readTextFileToArray`, writes it with
 * `writeArrayToTextFile` and appends with `addProjectUrlToHistoryFile`;
 * app/js/utils.js has the older `readFileToArray` and `writeArrayToFile`,
 * which do not trim what they write.
 *
 * The line break is a parameter: `\r\n` in the sources, `os.EOL` in the
 * compiled copy of the newer script.
 */
module History {
  import opened Text

  type Eol = s: string | s == "\r\n" || s == "\n" witness "\r\n"

  const Crlf: Eol := "\r\n"

  lemma EolUnbordered(eol: Eol)
    ensures |eol| > 0 && Unbordered(eol)
  {
    if eol == "\r\n" {
      assert eol[..1] == "\r" && eol[1..] == "\n";
    }
  }

  /** What a read returns: nothing when the file cannot be read, else the trimmed text split at line breaks. */
  function Lines(present: bool, content: string, eol: Eol): seq<string> {
    if present then Split(Trim(content), eol) else []
  }

  /** What a write stores: the lines joined by line breaks, trimmed in src/utils.ts only. */
  function Written(lines: seq<string>, eol: Eol, trim: bool): string {
    var text := Join(lines, eol);
    if trim then Trim(text) else text
  }

  /** The file after `addProjectUrlToHistoryFile`: unchanged when the URL is listed, else rewritten with it appended. */
  function AfterAdd(present: bool, content: string, url: string, eol: Eol): (bool, string) {
    var lines := Lines(present, content, eol);
    if url in lines then (present, content) else (true, Written(lines + [url], eol, true))
  }

  /** A text file on disk; `present` is false when reading it fails. */
  class TextFile {
    var present: bool
    var content: string

    constructor (present: bool, content: string)
      ensures this.present == present && this.content == content
    {
      this.present := present;
      this.content := content;
    }

    /** `readTextFileToArray` and `readFileToArray`: `[]` unless the read succeeds. */
    method ReadLines(eol: Eol) returns (lines: seq<string>)
      ensures lines == Lines(present, content, eol)
      ensures !present ==> lines == []
      ensures present ==> |lines| >= 1 && Join(lines, eol) == Trim(content)
    {
      lines := [];
      if present {
        lines := Split(Trim(content), eol);
        JoinSplit(Trim(content), eol);
      }
    }

    /** `writeArrayToTextFile` (`trim` set) and `writeArrayToFile` (`trim` clear). */
    method WriteLines(lines: seq<string>, eol: Eol, trim: bool)
      modifies this
      ensures present && content == Written(lines, eol, trim)
    {
      var text := Join(lines, eol);
      if trim {
        text := Trim(text);
      }
      present := true;
      content := text;
    }

    /** `addProjectUrlToHistoryFile`: read, append when missing, write back. */
    method AddUrl(url: string, eol: Eol)
      modifies this
      ensures (present, content) == AfterAdd(old(present), old(content), url, eol)
      ensures url in old(Lines(present, content, eol)) ==> present == old(present) && content == old(content)
    {
      var lines := ReadLines(eol);
      if url !in lines {
        lines := lines + [url];
        WriteLines(lines, eol, true);
      }
    }
  }

  // ---------------------------------------------------------------- properties

  /**
   * Reading back what was written gives the same lines, for a non-empty list
   * whose lines hold no line break and whose joined text has no space at
   * either end, trimmed on writing or not.
   */
  lemma ReadWritten(lines: seq<string>, eol: Eol, trim: bool)
    requires |lines| > 0
    requires forall i :: 0 <= i < |lines| ==> !Contains(lines[i], eol)
    requires Trimmed(Join(lines, eol))
    ensures Lines(true, Written(lines, eol, trim), eol) == lines
  {
    TrimOfTrimmed(Join(lines, eol));
    TrimOfTrimmed(Written(lines, eol, trim));
    EolUnbordered(eol);
    assert forall x :: x in lines ==> !Contains(x, eol);
    SplitJoin(lines, eol);
  }

  lemma {:induction false} TrimStartConcat(a: string, c: string)
    ensures |TrimStart(a)| > 0 ==> TrimStart(a + c) == TrimStart(a) + c
    ensures |TrimStart(a)| == 0 ==> TrimStart(a + c) == TrimStart(c)
    decreases |a|
  {
    if |a| > 0 {
      assert (a + c)[1..] == a[1..] + c;
      if IsJsSpace(a[0]) {
        TrimStartConcat(a[1..], c);
      }
    } else {
      assert a + c == c;
    }
  }

  lemma TrimEndKeeps(s: string)
    requires |s| > 0 && !IsJsSpace(s[|s| - 1])
    ensures TrimEnd(s) == s
  {
  }

  lemma EolSpaces(eol: Eol)
    ensures TrimStart(eol) == ""
  {
  }

  /**
   * After appending a URL (non-empty, no line break, no space at either end)
   * to whatever the file held, reading the file lists the URL.
   */
  lemma AppendedIsListed(lines: seq<string>, url: string, eol: Eol)
    requires |url| > 0 && Trimmed(url) && !Contains(url, eol)
    ensures url in Lines(true, Written(lines + [url], eol, true), eol)
  {
    EolUnbordered(eol);
    var j := Join(lines + [url], eol);
    var a := if |lines| == 0 then "" else Join(lines, eol) + eol;
    assert j == a + url by {
      if |lines| > 0 {
        JoinConcat(lines, [url], eol);
      } else {
        assert lines + [url] == [url];
      }
    }
    TrimStartConcat(a, url);
    var t := TrimStart(j);
    if |TrimStart(a)| > 0 {
      assert t == TrimStart(a) + url;
    } else {
      assert t == url;
    }
    TrimEndKeeps(t);
    assert Trim(j) == t;
    TrimStartShape(j);
    TrimOfTrimmed(t);
    assert Split(url, eol) == [url];
    assert Lines(true, Written(lines + [url], eol, true), eol) == Split(t, eol);
    if |TrimStart(a)| > 0 {
      var p := Join(lines, eol);
      TrimStartConcat(p, eol);
      if |TrimStart(p)| > 0 {
        assert TrimStart(a) == TrimStart(p) + eol;
        assert t == TrimStart(p) + eol + url;
        SplitAppend(TrimStart(p), eol, url);
        assert Split(t, eol) == Split(TrimStart(p), eol) + [url];
      } else {
        EolSpaces(eol);
        assert false;
      }
    }
  }

  /** Appending twice is appending once: after the first add the URL is listed, so the second changes nothing. */
  lemma AddUrlIdempotent(present: bool, content: string, url: string, eol: Eol)
    requires |url| > 0 && Trimmed(url) && !Contains(url, eol)
    ensures var (p, c) := AfterAdd(present, content, url, eol);
      url in Lines(p, c, eol) && AfterAdd(p, c, url, eol) == (p, c)
  {
    var lines := Lines(present, content, eol);
    if url !in lines {
      AppendedIsListed(lines, url, eol);
    }
  }

  /** A URL already listed leaves the file exactly as it was. */
  lemma AddListedUnchanged(present: bool, content: string, url: string, eol: Eol)
    requires url in Lines(present, content, eol)
    ensures AfterAdd(present, content, url, eol) == (present, content)
  {
  }
}
