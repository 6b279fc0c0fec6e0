/** The part of a sql.js database that services/dbService.ts uses: `exec`
    on a query text, which yields one result set per row-returning
    statement (none at all when the statement returns no row) or throws. */
module Engine {
  import opened Values

  /** The three query texts the service builds, by what is spliced into them. */
  datatype Query =
    | PreferredConversations(limit: int)
    | LegacyConversations(limit: int)
    | ChatMessages(chatRowId: int, limit: int)

  /** One element of what `exec` returns; only its rows are read. */
  datatype ResultSet = ResultSet(values: seq<Row>)

  /** What one `exec` call does: return result sets, or throw. */
  datatype ExecOutcome = Sets(sets: seq<ResultSet>) | Raised(error: string)

  /** An open database. What it answers to each query stands in for the
      SQL engine, and `executed` records the queries run, in order. */
  class Database {
    const reply: Query -> ExecOutcome
    ghost var executed: seq<Query>

    constructor(reply: Query -> ExecOutcome)
      ensures this.reply == reply && executed == []
    {
      this.reply := reply;
      executed := [];
    }

    /** `db.exec(query)` */
    method Exec(q: Query) returns (o: ExecOutcome)
      modifies this
      ensures o == reply(q)
      ensures executed == old(executed) + [q]
    {
      o := reply(q);
      executed := executed + [q];
    }
  }
}
