/** A redb database: the committed tables, and every commit there has been. */
module Database {
  import opened RedbTables

  class Database {
    var committed: Tables
    ghost var history: seq<Tables>

    /** `Database::create` on a path where there is no file. */
    constructor Create()
      ensures committed == Tables({}, map[], map[], map[], map[], map[], map[], map[])
      ensures history == []
    {
      committed := Tables({}, map[], map[], map[], map[], map[], map[], map[]);
      history := [];
    }

    /** `WriteTransaction::commit`, of a transaction that turned the committed tables into `write`. */
    method Commit(write: Tables)
      modifies this
      ensures committed == write
      ensures history == old(history) + [write]
    {
      committed := write;
      history := history + [write];
    }
  }
}
