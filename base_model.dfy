/**
 * The entity base type every persisted record derives from: a key, a soft-delete
 * flag and two audit timestamps, plus the derived type's own fields.
 */
module BaseModel {

  /** A `Guid` key: a 128-bit value. */
  newtype Guid = x: int | 0 <= x < 0x1_0000_0000_0000_0000_0000_0000_0000_0000

  /** A `DateTime`, modelled by its tick count. */
  type Timestamp = nat

  /** `DateTime.MinValue`, the value of a timestamp that was never assigned. */
  const MinValue: Timestamp := 0

  /** A record of the table: the base fields and the payload `data` of the derived type. */
  datatype Entity<D> = Entity(id: Guid, isDeleted: bool, createdAt: Timestamp, updatedAt: Timestamp, data: D)

  /** The audit fields are both set and not out of order. */
  predicate Audited<D>(e: Entity<D>)
  {
    e.createdAt != MinValue && e.createdAt <= e.updatedAt
  }

  /** The entity as Insert stamps it: two separate clock readings. */
  function InsertStamp<D>(e: Entity<D>, createdNow: Timestamp, updatedNow: Timestamp): (r: Entity<D>)
    ensures r.createdAt == createdNow && r.updatedAt == updatedNow
    ensures r.id == e.id && r.isDeleted == e.isDeleted && r.data == e.data
  {
    e.(createdAt := createdNow, updatedAt := updatedNow)
  }

  /** The entity as Update stamps it: `UpdatedAt` refreshed, an unset `CreatedAt` backfilled. */
  function UpdateStamp<D>(e: Entity<D>, now: Timestamp): (r: Entity<D>)
    ensures r.updatedAt == now
    ensures e.createdAt == MinValue ==> r.createdAt == r.updatedAt
    ensures e.createdAt != MinValue ==> r.createdAt == e.createdAt
    ensures r.id == e.id && r.isDeleted == e.isDeleted && r.data == e.data
  {
    var touched := e.(updatedAt := now);
    if touched.createdAt == MinValue then touched.(createdAt := touched.updatedAt) else touched
  }

  /** With a clock whose readings are set and do not go backwards, Insert yields audited entities. */
  lemma InsertStampAudited<D>(e: Entity<D>, createdNow: Timestamp, updatedNow: Timestamp)
    requires MinValue < createdNow <= updatedNow
    ensures Audited(InsertStamp(e, createdNow, updatedNow))
  {
  }

  /** Insert's two readings agree exactly when the stamped timestamps are equal. */
  lemma InsertStampEqualTimes<D>(e: Entity<D>, createdNow: Timestamp, updatedNow: Timestamp)
    ensures InsertStamp(e, createdNow, updatedNow).createdAt == InsertStamp(e, createdNow, updatedNow).updatedAt
            <==> createdNow == updatedNow
  {
  }

  /** Update keeps an entity audited when the clock has not gone back before its creation. */
  lemma UpdateStampAudited<D>(e: Entity<D>, now: Timestamp)
    requires now != MinValue
    requires e.createdAt == MinValue || e.createdAt <= now
    ensures Audited(UpdateStamp(e, now))
  {
  }

  /** Stamping twice with the same reading is stamping once. */
  lemma UpdateStampIdempotent<D>(e: Entity<D>, now: Timestamp)
    ensures UpdateStamp(UpdateStamp(e, now), now) == UpdateStamp(e, now)
  {
  }

  /** Updating the entity value Insert stamped keeps the creation time Insert recorded. */
  lemma UpdateKeepsInsertTime<D>(e: Entity<D>, createdNow: Timestamp, updatedNow: Timestamp, now: Timestamp)
    requires createdNow != MinValue
    ensures UpdateStamp(InsertStamp(e, createdNow, updatedNow), now).createdAt == createdNow
  {
  }
}
