/** File descriptors as execute, open and close leave them. */
module Descriptors {
  datatype FileOps = NoOps | StdinOps | StdoutOps | FileTable | DirTable | RtcTable

  datatype Fd = Fd(ops: FileOps, inode: nat, position: nat, inUse: bool)

  const CLOSED := Fd(NoOps, 0, 0, false)

  /** The descriptor array of a new process: stdin, stdout and six closed entries. */
  const INITIAL_FDS: seq<Fd> :=
    [Fd(StdinOps, 0, 0, true), Fd(StdoutOps, 0, 0, true), CLOSED, CLOSED, CLOSED, CLOSED, CLOSED, CLOSED]

  /** halt resets the entries in use and leaves the others as they are. */
  function Released(fd: Fd): Fd {
    if fd.inUse then CLOSED else fd
  }

  function ReleasedAll(fds: seq<Fd>): (r: seq<Fd>)
    ensures |r| == |fds|
    ensures forall i :: 0 <= i < |fds| ==> r[i] == Released(fds[i])
  {
    seq(|fds|, i requires 0 <= i < |fds| => Released(fds[i]))
  }

  /** Descriptor 0 reads the keyboard, descriptor 1 prints, and nothing else is open. */
  ghost predicate StdioOnly(fds: seq<Fd>) {
    && |fds| == 8
    && fds[0].ops == StdinOps && fds[0].inUse && fds[0].position == 0
    && fds[1].ops == StdoutOps && fds[1].inUse && fds[1].position == 0
    && forall i :: 2 <= i < 8 ==> fds[i].ops == NoOps && !fds[i].inUse
  }
}
