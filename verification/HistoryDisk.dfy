/** The files of one store directory as other processes and this one see them.
    A file carries the token os.Stat compares (identity, size, modification
    time); every write gives a token that no earlier version of any file had. */
module HistoryDisk {
  import opened Common
  import opened HistoryScan

  datatype File = File(lines: seq<Line>, token: nat)

  class Disk {
    var files: map<string, File>
    var nextToken: nat

    ghost predicate Valid()
      reads this
    {
      forall p | p in files :: files[p].token < nextToken
    }

    /** What a reader sees; tokens are bookkeeping. */
    ghost function Contents(): map<string, seq<Line>>
      reads this
    {
      map p | p in files :: files[p].lines
    }

    function Read(path: string): Option<seq<Line>>
      reads this
    {
      if path in files then Some(files[path].lines) else None
    }

    method Write(path: string, lines: seq<Line>)
      requires Valid()
      modifies this
      ensures Valid()
      ensures files == old(files)[path := File(lines, old(nextToken))]
      ensures nextToken == old(nextToken) + 1
      ensures Contents() == old(Contents())[path := lines]
    {
      files := files[path := File(lines, nextToken)];
      nextToken := nextToken + 1;
    }

    method Remove(path: string)
      requires Valid()
      modifies this
      ensures Valid()
      ensures files == old(files) - {path} && nextToken == old(nextToken)
      ensures Contents() == old(Contents()) - {path}
    {
      files := files - {path};
    }
  }
}
