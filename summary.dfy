/**
  The changed-file listing both scripts put into their prompts: one line per
  file of the pull request, up to a cap, and a closing "... and K more" line
  when the list was cut.
 */
module FileSummary {
  import opened Text

  /** One entry of the pull request's file list, as the code host reports it. */
  datatype ChangedFile = ChangedFile(filename: string, status: string, additions: nat, deletions: nat)

  /** `f"{status} {filename} (+{additions}/-{deletions})"` */
  function FileLine(f: ChangedFile): string {
    f.status + " " + f.filename + " (+" + NatToString(f.additions) + "/-" + NatToString(f.deletions) + ")"
  }

  /** `f"... and {k} more"` */
  function MoreLine(k: nat): string {
    "... and " + NatToString(k) + " more"
  }

  /** The lines of the listing: the first `cap` files, then the overflow count. */
  function SummaryLines(fs: seq<ChangedFile>, cap: nat): (lines: seq<string>)
    ensures |lines| == if |fs| > cap then cap + 1 else |fs|
    ensures forall i :: 0 <= i < |fs| && i < cap ==> lines[i] == FileLine(fs[i])
    ensures |fs| > cap ==> lines[cap] == MoreLine(|fs| - cap)
  {
    var shown := if |fs| > cap then cap else |fs|;
    seq(shown, i requires 0 <= i < shown => FileLine(fs[i]))
      + (if |fs| > cap then [MoreLine(|fs| - cap)] else [])
  }

  /** `summarize_files(fs, cap)`: the loop over `fs[:cap]`, then the join on newlines. */
  method SummarizeFiles(fs: seq<ChangedFile>, cap: nat) returns (summary: string)
    ensures summary == Join(SummaryLines(fs, cap), "\n")
  {
    var out: seq<string> := [];
    var shown := if |fs| > cap then cap else |fs|;
    var i := 0;
    while i < shown
      invariant 0 <= i <= shown
      invariant |out| == i
      invariant forall j :: 0 <= j < i ==> out[j] == FileLine(fs[j])
    {
      out := out + [FileLine(fs[i])];
      i := i + 1;
    }
    if |fs| > cap {
      out := out + [MoreLine(|fs| - cap)];
    }
    assert out == SummaryLines(fs, cap);
    summary := Join(out, "\n");
  }
}
