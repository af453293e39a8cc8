/**
 The checkpoint file. A save writes a temporary file of its own and then renames it over
 the stored one, so that a failure at any point leaves the stored checkpoint readable.
 */
module CheckpointStore {
  import opened Wrappers
  import opened AuditModel

  /** A file holds either the whole JSON text of a checkpoint, or a proper prefix of one,
      which does not parse: the closing brace is missing. */
  datatype FileContent = Truncated | Whole(checkpoint: Checkpoint)

  /** What `load` makes of the stored file: a missing or corrupt file is "no checkpoint". */
  function Parse(file: Option<FileContent>): Option<Checkpoint> {
    match file
    case Some(Whole(cp)) => Some(cp)
    case Some(Truncated) => None
    case None => None
  }

  /** Where an OSError strikes a save; `unlinked` says whether the cleanup succeeds. */
  datatype SaveFault =
    | NoFault
    | MkdirFails
    | MkstempFails
    | WriteFails(unlinked: bool)
    | ReplaceFails(unlinked: bool)

  class LocalFileCheckpointStore {
    /** The stored file. */
    var target: Option<FileContent>
    /** Temporary files, by name. */
    var temps: map<nat, FileContent>
    var nextTemp: nat

    /** `mkstemp` never returns a name in use. */
    ghost predicate Valid()
      reads this
    {
      forall name :: name in temps ==> name < nextTemp
    }

    function Load(): Option<Checkpoint>
      reads this
    {
      Parse(target)
    }

    constructor ()
      ensures Valid() && Load() == None && temps == map[]
    {
      target := None;
      temps := map[];
      nextTemp := 0;
    }

    /** Saves all or nothing; a failing save leaves at most one temporary file behind. */
    method Save(cp: Checkpoint, fault: SaveFault) returns (ok: bool)
      requires Valid()
      modifies this
      ensures Valid()
      ensures ok <==> fault == NoFault
      ensures if ok then target == Some(Whole(cp)) else target == old(target)
      ensures Load() == if ok then Some(cp) else old(Load())
      ensures temps.Keys <= old(temps).Keys + {old(nextTemp)}
      ensures forall name :: name in old(temps) ==> name in temps && temps[name] == old(temps)[name]
      ensures ok || (fault.WriteFails? && fault.unlinked) || (fault.ReplaceFails? && fault.unlinked) ==>
        temps == old(temps)
    {
      if fault.MkdirFails? || fault.MkstempFails? {
        return false;
      }
      var name := nextTemp;
      nextTemp := nextTemp + 1;
      temps := temps[name := Truncated];
      if fault.NoFault? || fault.ReplaceFails? {
        temps := temps[name := Whole(cp)];
      }
      if fault.NoFault? {
        target := Some(temps[name]);
        temps := temps - {name};
        return true;
      }
      if fault.unlinked {
        temps := temps - {name};
      }
      return false;
    }
  }
}
