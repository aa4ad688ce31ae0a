/**
 * The audit store of the role monitor: one record per member, kept in a JSON
 * file that is read whole, updated for one member and written back whole.
 */
module AuditStore {
  import opened RankConflict

  type MemberId = int

  /** The ISO 8601 time of a correction, taken as given. */
  type Timestamp = string

  /** The last corrective action taken for a member. */
  datatype AuditRecord = AuditRecord(timestamp: Timestamp, removedRoles: set<RoleId>, newRole: RoleId)

  /** The value a JSON document decodes to, as far as the store cares. */
  datatype JsonValue =
    | Object(records: map<MemberId, AuditRecord>)
    | NonObject

  /** The role-data file on disk. */
  datatype RoleDataFile =
    | Missing
    | Undecodable
    | Unreadable
    | Decodes(value: JsonValue)

  /** What reading the file gives: a decoded value, or an error that escapes. */
  datatype LoadResult = Loaded(value: JsonValue) | LoadFailed

  /**
   * Reading the file: a missing file or one that is not valid JSON reads as an
   * empty mapping; a file that cannot be opened or read as text is an error.
   */
  function LoadRoleData(file: RoleDataFile): (data: LoadResult)
    ensures data.LoadFailed? <==> file.Unreadable?
    ensures file.Decodes? ==> data == Loaded(file.value)
    ensures file.Missing? || file.Undecodable? ==> data == Loaded(Object(map[]))
  {
    match file
    case Decodes(v) => Loaded(v)
    case Unreadable => LoadFailed
    case _ => Loaded(Object(map[]))
  }

  /** The record written for a correction taken at time `now`. */
  function RecordOf(c: Correction, now: Timestamp): AuditRecord
  {
    AuditRecord(now, c.remove, c.keep)
  }

  /**
   * Setting the acting member's entry: that entry is the new record, whatever
   * was there before; every other member's entry is as it was.
   */
  function WithRecord(records: map<MemberId, AuditRecord>, member: MemberId, rec: AuditRecord)
    : (updated: map<MemberId, AuditRecord>)
    ensures updated.Keys == records.Keys + {member}
    ensures updated[member] == rec
    ensures forall m :: m in records && m != member ==> m in updated && updated[m] == records[m]
  {
    records[member := rec]
  }

  /** The role-data file and its load and save operations. */
  class RoleDataStore {
    var file: RoleDataFile

    constructor (initial: RoleDataFile)
      ensures file == initial
    {
      file := initial;
    }

    method Load() returns (data: LoadResult)
      ensures data == LoadRoleData(file)
    {
      data := LoadRoleData(file);
    }

    /** Saving replaces the whole file; loading it again gives back `records`. */
    method Save(records: map<MemberId, AuditRecord>)
      modifies this
      ensures file == Decodes(Object(records))
      ensures LoadRoleData(file) == Loaded(Object(records))
    {
      file := Decodes(Object(records));
    }
  }
}
