/** Client runs of the repository, proved from the operations' contracts and the laws about the table and the queries. */
module Scenarios {
  import opened Wrappers
  import opened BaseModel
  import opened Store
  import opened Repositories

  /** Insert an entity, delete it by key: FindAsync sees nothing and no row of any kind is left. */
  method HardDeleteScenario(a: Entity<int>, createdNow: Timestamp, updatedNow: Timestamp) returns (found: Option<Entity<int>>, remaining: nat)
    ensures found == None
    ensures remaining == 0
  {
    var repo := new BaseRepository<int>(["Id", "IsDeleted", "CreatedAt", "UpdatedAt", "Data"], []);
    var inserted := repo.Insert(a, createdNow, updatedNow);
    var deleted := repo.DeleteById(a.id);
    found := repo.FindAsync(a.id);
    EmptyTable(repo.rows);
    remaining := repo.CountAsync((x: Entity<int>) => true);
  }

  /**
   * Insert an entity, then Update with a fresh object for its key whose creation
   * time is unset: the stored creation time becomes the update's clock reading,
   * not the one Insert recorded.
   */
  method UpdateFromFreshObjectScenario(a: Entity<int>, createdNow: Timestamp, updatedNow: Timestamp, now: Timestamp)
    returns (stored: Result<Entity<int>, Error>)
    ensures stored.Success? && stored.value.createdAt == now
  {
    var repo := new BaseRepository<int>(["Id", "IsDeleted", "CreatedAt", "UpdatedAt", "Data"], []);
    EmptyTable(repo.rows);
    var inserted := repo.Insert(a, createdNow, updatedNow);
    var updated := repo.Update(a.(createdAt := MinValue), now);
    GetByKey(repo, a.id);
    stored := repo.Get(a.id, None);
  }

  /**
   * A batch of three new rows with the reported count set to two: the mismatch is
   * reported, yet the input comes back unchanged. The reported count is a free
   * parameter of the model, so the three rows are stored whatever count is reported.
   */
  method InsertRangeMismatchScenario(a: Entity<int>, b: Entity<int>, c: Entity<int>) returns (r: Result<seq<Entity<int>>, Error>, countMismatch: bool, stored: nat)
    requires a.id != b.id && b.id != c.id && a.id != c.id
    ensures r == Success([a, b, c])
    ensures countMismatch
    ensures stored == 3
  {
    var repo := new BaseRepository<int>(["Id", "IsDeleted", "CreatedAt", "UpdatedAt", "Data"], []);
    assert UniqueIds([a, b, c]);
    r, countMismatch := repo.InsertRange([a, b, c], 2);
    stored := repo.CountAsync((x: Entity<int>) => true);
    assert repo.rows == [a, b, c];
    assert Queries.Where(repo.rows, (x: Entity<int>) => true) == repo.rows by {
      Queries.WhereAlways(repo.rows, (x: Entity<int>) => true);
    }
  }
}
