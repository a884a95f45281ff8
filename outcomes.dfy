/** One entry of `batch_save`'s `processed` list, and the totals computed from the list. */
module Outcomes {
  import opened Wrappers
  import opened Paths

  /**
   * Why a URL was not saved: the fetch raised (with its message), `urlparse` raised
   * "Invalid IPv6 URL", or `os.makedirs` raised because a file stands where a directory must be.
   */
  datatype Failure = FetchError(message: string) | InvalidIPv6Url | DirectoryBlocked(dir: Path)

  /** `{"status": "saved", url, path, title}` or `{"status": "error", url, error}`. */
  datatype Outcome = Saved(url: string, path: Path, title: Option<string>) | Failed(url: string, error: Failure)

  /** `len([r for r in results if r["status"] == "saved"])` */
  function CountSaved(os: seq<Outcome>): (n: nat)
    ensures n <= |os|
  {
    if os == [] then 0
    else CountSaved(os[..|os| - 1]) + (if os[|os| - 1].Saved? then 1 else 0)
  }

  /** `len([r for r in results if r["status"] == "error"])` */
  function CountErrors(os: seq<Outcome>): (n: nat)
    ensures n <= |os|
  {
    if os == [] then 0
    else CountErrors(os[..|os| - 1]) + (if os[|os| - 1].Failed? then 1 else 0)
  }

  /** Every outcome is counted once: as saved or as an error. */
  lemma {:induction false} CountsAddUp(os: seq<Outcome>)
    ensures CountSaved(os) + CountErrors(os) == |os|
  {
    if os != [] {
      CountsAddUp(os[..|os| - 1]);
    }
  }

  /** All URLs were saved exactly when no error is counted. */
  lemma AllSaved(os: seq<Outcome>)
    ensures CountSaved(os) == |os| <==> CountErrors(os) == 0
  {
    CountsAddUp(os);
  }
}
