/** The local temporary-file layer: create a uniquely named temp file, write a string
    into it, remove it. Real directories, permissions and file handles are not modelled;
    what is kept is which temp files exist and what they hold. */
module Os {
  import opened Wrappers

  /** The path of a temp file. The operating system makes temp paths unique; here a
      path carries the serial number of the creation that made it, plus the name hint
      it was made from. */
  datatype TempPath = TempPath(serial: nat, hint: string)

  /** The first `n` characters of `s`, or all of `s` when it is shorter: what a write
      that stopped after `n` characters leaves behind. */
  function Truncate(s: string, n: nat): (r: string)
    ensures |r| <= |s| && r <= s
    ensures n <= |s| ==> |r| == n
    ensures |s| <= n ==> r == s
  {
    if n <= |s| then s[..n] else s
  }

  /** The host's temp files. `files` maps each live temp file to its content;
      `nextSerial` is the number of temp files created so far. */
  class HostFs {
    var files: map<TempPath, string>
    var nextSerial: nat

    /** Every live temp file was made by an earlier creation, so a new serial is fresh. */
    ghost predicate Valid()
      reads this
    {
      forall t :: t in files ==> t.serial < nextSerial
    }

    constructor ()
      ensures Valid() && files == map[] && nextSerial == 0
    {
      files := map[];
      nextSerial := 0;
    }

    /** Creates a new, empty temp file whose name is made from `hint`; `fails` says
        whether the operating system refuses. */
    method CreateTemp(hint: string, fails: bool) returns (t: Option<TempPath>)
      requires Valid()
      modifies this
      ensures Valid()
      ensures fails ==> t == None && files == old(files) && nextSerial == old(nextSerial)
      ensures !fails ==> t == Some(TempPath(old(nextSerial), hint))
      ensures !fails ==> t.value !in old(files) && files == old(files)[t.value := ""]
      ensures !fails ==> nextSerial == old(nextSerial) + 1
    {
      if fails {
        t := None;
      } else {
        t := Some(TempPath(nextSerial, hint));
        files := files[t.value := ""];
        nextSerial := nextSerial + 1;
      }
    }

    /** Appends `s` to the open temp file `t`. `stopsAfter` is `Some(n)` when the write
        fails after storing `n` characters, `None` when it succeeds. */
    method WriteString(t: TempPath, s: string, stopsAfter: Option<nat>) returns (ok: bool)
      requires Valid() && t in files
      modifies this`files
      ensures Valid()
      ensures ok == stopsAfter.None?
      ensures files == old(files)[t := old(files)[t] + if ok then s else Truncate(s, stopsAfter.value)]
    {
      ok := stopsAfter.None?;
      files := files[t := files[t] + if ok then s else Truncate(s, stopsAfter.value)];
    }

    /** Deletes the temp file `t`, if it exists. */
    method Remove(t: TempPath)
      requires Valid()
      modifies this`files
      ensures Valid()
      ensures files == old(files) - {t}
    {
      files := files - {t};
    }
  }
}
