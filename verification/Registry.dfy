/** The set of projects the agent serves. */
module Registry {
  import opened Wrappers
  import opened Json
  import opened Envelope
  import opened Operations
  import opened KeyOrder
  import opened KeySort
  import GoStrings
  import Secrets

  /** `decodeRegistryArgs`: the project a registration names, untrimmed but not blank. */
  function DecodeProject(args: RawArgs): Result<string, ExecError> {
    if !args.Decoded? then Err(ErrFailed)
    else
      match args.value
      case Obj(m) =>
        var projectId :- Secrets.StringField(m, "project_id");
        if GoStrings.TrimSpace(projectId) == "" then Err(ErrFailed) else Ok(projectId)
      case _ => Err(ErrFailed)
  }

  /** Exactly the arguments that state a project are accepted. */
  lemma DecodeProjectIff(args: RawArgs, p: string)
    ensures DecodeProject(args) == Ok(p) <==> Secrets.StatesProject(args, p)
    ensures DecodeProject(args).Err? ==> DecodeProject(args).error == ErrFailed
  {
    GoStrings.TrimSpaceIff(p);
    GoStrings.TrimSpaceIff("");
    hide GoStrings.TrimSpace, GoStrings.IsSpace;
    if args.Decoded? && args.value.Obj? && p != "" {
      Secrets.ProjectStated(args.value.members, p);
    }
  }

  class ProjectRegistry {
    var known: set<string>

    constructor ()
      ensures known == {}
    {
      known := {};
    }

    /** Adds a project and says whether that changed the set. */
    method Add(projectId: string) returns (changed: bool)
      modifies this
      ensures known == old(known) + {projectId} && changed == (known != old(known))
    {
      if projectId in known {
        return false;
      }
      known := known + {projectId};
      assert projectId in known;
      changed := true;
    }

    method Remove(projectId: string) returns (changed: bool)
      modifies this
      ensures known == old(known) - {projectId} && changed == (known != old(known))
    {
      if projectId !in known {
        return false;
      }
      known := known - {projectId};
      assert projectId !in known;
      changed := true;
    }

    /** Every project served, sorted. */
    method List() returns (list: seq<string>)
      ensures list == SortedKeys(ByteOrder, known)
    {
      var sorted := KeysInOrder(ByteOrder, known);
      list := sorted[..];
    }
  }
}
