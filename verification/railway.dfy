/**
 * The one-off deployment script: connect to the MySQL server without choosing a
 * database, create the application's database when the server does not list it,
 * create the `tasks` table if it is missing, seed four sample titles, and read
 * back two statistics. Any error is passed on unchanged, and the connection is
 * closed whether or not the setup succeeds.
 */
module RailwaySetup {
  import opened Wrappers
  import opened Tasks
  import opened Database

  /** The titles this script seeds (they differ from the server's own samples). */
  const RailwaySamples: seq<string> := [
    "Configurar Railway MySQL",
    "Desplegar backend en la nube",
    "Conectar React con API remota",
    "Probar aplicación en producción"
  ]

  /** The MySQL server as the script sees it: its databases and how many connections are open. */
  class Server {
    var databases: set<string>
    var openConnections: nat

    constructor (databases: set<string>)
      ensures this.databases == databases && openConnections == 0
    {
      this.databases := databases;
      openConnections := 0;
    }
  }

  /**
   * `setupRailwayDatabase`. Statement 0 opens the connection (outside the error
   * handler); the rest are numbered in the order they are issued: `SHOW DATABASES`,
   * `CREATE DATABASE` only when `dbName` is not listed, `USE`, `CREATE TABLE IF NOT
   * EXISTS`, the seeding loop, then the two statistics queries. `db` is the `tasks`
   * table inside `dbName`.
   */
  method SetupRailwayDatabase(server: Server, dbName: string, db: Database, outage: Outage) returns (r: Result<(), string>)
    requires db.Valid()
    requires dbName !in server.databases ==> !db.hasTable
    modifies server, db
    ensures db.Valid()
    ensures server.openConnections == old(server.openConnections)
    ensures r.Failure? ==> outage.FailsAt? && r.error == outage.message
    ensures outage == Healthy ==> r.Success?
    ensures r.Success? ==> server.databases == old(server.databases) + {dbName} && db.hasTable
    ensures server.databases == old(server.databases) || server.databases == old(server.databases) + {dbName}
    ensures dbName in old(server.databases) ==> server.databases == old(server.databases)
    ensures SeededFrom(old(db.rows), old(db.nextId), db.rows, db.nextId, RailwaySamples)
    ensures |db.rows| <= |old(db.rows)| + |RailwaySamples|
    ensures r.Success? ==> db.State() == SeedAll(old(db.State()), RailwaySamples)
    ensures r.Success? ==> forall t :: t in RailwaySamples ==> HasTitle(db.rows, t)
    ensures (forall t :: t in RailwaySamples ==> HasTitle(old(db.rows), t)) ==> db.State() == old(db.State())
  {
    if FailsAtStep(outage, 0) {
      return Failure(outage.message);
    }
    server.openConnections := server.openConnections + 1;
    r := ConfigureAndSeed(server, dbName, db, outage);
    server.openConnections := server.openConnections - 1;
  }

  /** The body of the error handler, from `SHOW DATABASES` to the statistics, on an open connection. */
  method ConfigureAndSeed(server: Server, dbName: string, db: Database, outage: Outage) returns (r: Result<(), string>)
    requires db.Valid()
    requires dbName !in server.databases ==> !db.hasTable
    modifies server`databases, db
    ensures db.Valid()
    ensures r.Failure? ==> outage.FailsAt? && r.error == outage.message
    ensures outage == Healthy ==> r.Success?
    ensures r.Success? ==> server.databases == old(server.databases) + {dbName} && db.hasTable
    ensures server.databases == old(server.databases) || server.databases == old(server.databases) + {dbName}
    ensures dbName in old(server.databases) ==> server.databases == old(server.databases)
    ensures SeededFrom(old(db.rows), old(db.nextId), db.rows, db.nextId, RailwaySamples)
    ensures |db.rows| <= |old(db.rows)| + |RailwaySamples|
    ensures r.Success? ==> db.State() == SeedAll(old(db.State()), RailwaySamples)
    ensures r.Success? ==> forall t :: t in RailwaySamples ==> HasTitle(db.rows, t)
    ensures (forall t :: t in RailwaySamples ==> HasTitle(old(db.rows), t)) ==> db.State() == old(db.State())
  {
    var next, err := PrepareDatabase(server, dbName, db, outage);
    if err.Some? {
      return Failure(err.value);
    }
    next, err := db.Seed(RailwaySamples, outage, next);
    if err.Some? {
      return Failure(err.value);
    }
    // SELECT COUNT(*), then SHOW TABLES
    if FailsAtStep(outage, next) || FailsAtStep(outage, next + 1) {
      return Failure(outage.message);
    }
    r := Success(());
  }

  /**
   * Statements 1 onwards up to the seeding loop: list the databases, create `dbName`
   * when it is not listed, select it, and create the `tasks` table if it is missing.
   * Returns the number of the next statement, or the error that stopped the run.
   */
  method PrepareDatabase(server: Server, dbName: string, db: Database, outage: Outage) returns (next: nat, err: Option<string>)
    requires db.Valid()
    requires dbName !in server.databases ==> !db.hasTable
    modifies server`databases, db
    ensures db.Valid() && db.State() == old(db.State())
    ensures err.Some? ==> outage.FailsAt? && err.value == outage.message
    ensures outage == Healthy ==> err.None?
    ensures err.None? ==> server.databases == old(server.databases) + {dbName} && db.hasTable
    ensures server.databases == old(server.databases) || server.databases == old(server.databases) + {dbName}
    ensures dbName in old(server.databases) ==> server.databases == old(server.databases)
  {
    if FailsAtStep(outage, 1) {
      return 2, Some(outage.message);
    }
    next := 2;
    if dbName !in server.databases {
      if FailsAtStep(outage, next) {
        return next + 1, Some(outage.message);
      }
      server.databases := server.databases + {dbName};
      next := next + 1;
    }
    // USE dbName
    if FailsAtStep(outage, next) {
      return next + 1, Some(outage.message);
    }
    next := next + 1;
    var created := db.CreateTableIfNotExists(FaultAt(outage, next));
    next := next + 1;
    if created.Failure? {
      return next, Some(created.error);
    }
    err := None;
  }
}
