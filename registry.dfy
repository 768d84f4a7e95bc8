/** `TerminalRegistry` (src/terminalRegistry.ts): a pair of maps between the editor's
    terminals and the ids that the OSC events are tagged with. Ids come from `randomUUID`;
    here the caller supplies the id to use for a new terminal. */
module Registry {
  import opened Wrappers

  /** An editor terminal, compared by identity. */
  datatype Terminal = Terminal(handle: nat)

  class TerminalRegistry {
    var terminalToId: map<Terminal, string>
    var idToTerminal: map<string, Terminal>
    /** Every id ever handed out. */
    ghost var issued: set<string>

    /** The two maps are inverse to each other, ids are non-empty, and every id in use was
        handed out at some point. */
    ghost predicate Valid()
      reads this
    {
      (forall t :: t in terminalToId ==> terminalToId[t] in idToTerminal && idToTerminal[terminalToId[t]] == t)
      && (forall id :: id in idToTerminal ==> idToTerminal[id] in terminalToId && terminalToId[idToTerminal[id]] == id)
      && (forall t :: t in terminalToId ==> terminalToId[t] != [])
      && idToTerminal.Keys <= issued
    }

    constructor()
      ensures Valid() && terminalToId == map[] && idToTerminal == map[] && issued == {}
    {
      terminalToId := map[];
      idToTerminal := map[];
      issued := {};
    }

    /** `getOrAssignId`: the id of a known terminal, unchanged; otherwise the newId id,
        recorded in both directions. */
    method GetOrAssignId(terminal: Terminal, newId: string) returns (id: string)
      requires Valid()
      requires newId != [] && newId !in issued
      modifies this
      ensures Valid()
      ensures terminal in old(terminalToId) ==>
        id == old(terminalToId[terminal]) && terminalToId == old(terminalToId)
        && idToTerminal == old(idToTerminal) && issued == old(issued)
      ensures terminal !in old(terminalToId) ==>
        id == newId && terminalToId == old(terminalToId)[terminal := newId]
        && idToTerminal == old(idToTerminal)[newId := terminal] && issued == old(issued) + {newId}
      ensures idToTerminal[id] == terminal
    {
      if terminal in terminalToId && terminalToId[terminal] != [] {
        return terminalToId[terminal];
      }
      id := newId;
      terminalToId := terminalToId[terminal := id];
      idToTerminal := idToTerminal[id := terminal];
      issued := issued + {id};
    }

    /** `getTerminalById`. */
    method GetTerminalById(terminalId: string) returns (t: Option<Terminal>)
      requires Valid()
      ensures t.Some? <==> terminalId in idToTerminal
      ensures t.Some? ==> t.value in terminalToId && terminalToId[t.value] == terminalId
      ensures terminalId !in issued ==> t.None?
    {
      if terminalId in idToTerminal {
        return Some(idToTerminal[terminalId]);
      }
      return None;
    }

    /** `unregister`: forgets a known terminal in both directions; an unknown terminal
        changes nothing. */
    method Unregister(terminal: Terminal)
      requires Valid()
      modifies this
      ensures Valid()
      ensures issued == old(issued)
      ensures terminal in old(terminalToId) ==>
        terminalToId == old(terminalToId) - {terminal}
        && idToTerminal == old(idToTerminal) - {old(terminalToId[terminal])}
        && old(terminalToId[terminal]) !in idToTerminal
      ensures terminal !in old(terminalToId) ==>
        terminalToId == old(terminalToId) && idToTerminal == old(idToTerminal)
    {
      if terminal !in terminalToId || terminalToId[terminal] == [] {
        return;
      }
      var terminalId := terminalToId[terminal];
      terminalToId := terminalToId - {terminal};
      idToTerminal := idToTerminal - {terminalId};
    }
  }
}
