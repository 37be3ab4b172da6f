/** serial/simulator.py: one row of the array and the four gates that act on it.
    The rows evolve independently, so a column is one bit here. */
module Simulator {

  datatype GateType = NOT | NOR | INIT0 | INIT1

  class SerialSimulator {
    var memory: seq<bool>
    var latency: nat
    var maxUsed: nat

    constructor (numCols: nat)
      ensures |memory| == numCols && (forall c | 0 <= c < numCols :: !memory[c])
      ensures latency == 0 && maxUsed == 0
    {
      memory := seq(numCols, _ => false);
      latency := 0;
      maxUsed := 0;
    }

    /** Logic gates are ANDed into the old bit (X-MAGIC). The preconditions are the three assertions of the source, plus
        indices in range. */
    method Perform(g: GateType, inputs: seq<nat>, outputs: seq<nat>)
      requires forall i | 0 <= i < |inputs| :: inputs[i] !in outputs
      requires forall i, j | 0 <= i < j < |inputs| :: inputs[i] != inputs[j]
      requires forall i, j | 0 <= i < j < |outputs| :: outputs[i] != outputs[j]
      requires |outputs| >= 1 && outputs[0] < |memory|
      requires forall i | 0 <= i < |inputs| :: inputs[i] < |memory|
      requires g.NOT? ==> |inputs| >= 1
      requires g.NOR? ==> |inputs| >= 2
      modifies this
      ensures var m, o := old(memory), outputs[0];
              memory == match g
                        case INIT0 => m[o := false]
                        case INIT1 => m[o := true]
                        case NOT => m[o := m[o] && !m[inputs[0]]]
                        case NOR => m[o := m[o] && !(m[inputs[0]] || m[inputs[1]])]
      ensures latency == old(latency) + 1
      ensures maxUsed == if old(maxUsed) < outputs[0] then outputs[0] else old(maxUsed)
    {
      var o := outputs[0];
      match g {
        case NOT => memory := memory[o := memory[o] && !memory[inputs[0]]];
        case NOR => memory := memory[o := memory[o] && !(memory[inputs[0]] || memory[inputs[1]])];
        case INIT0 => memory := memory[o := false];
        case INIT1 => memory := memory[o := true];
      }
      latency := latency + 1;
      maxUsed := if maxUsed < o then o else maxUsed;
    }

    method Init0(o: nat)
      requires o < |memory|
      modifies this
      ensures memory == old(memory)[o := false]
      ensures latency == old(latency) + 1
    {
      Perform(INIT0, [], [o]);
    }

    method Init1(o: nat)
      requires o < |memory|
      modifies this
      ensures memory == old(memory)[o := true]
      ensures latency == old(latency) + 1
    {
      Perform(INIT1, [], [o]);
    }

    /** A NOT without initialisation (X-MAGIC): the output keeps its old value where `a` is 0. */
    method NotInto(a: nat, o: nat)
      requires a < |memory| && o < |memory| && a != o
      modifies this
      ensures memory == old(memory)[o := old(memory)[o] && !old(memory)[a]]
      ensures latency == old(latency) + 1
    {
      Perform(NOT, [a], [o]);
    }

    /** INIT1 followed by NOT. */
    method Not(a: nat, o: nat)
      requires a < |memory| && o < |memory| && a != o
      modifies this
      ensures memory == old(memory)[o := !old(memory)[a]]
      ensures latency == old(latency) + 2
    {
      Perform(INIT1, [], [o]);
      Perform(NOT, [a], [o]);
    }

    /** INIT1 followed by NOR. */
    method Nor(a: nat, b: nat, o: nat)
      requires a < |memory| && b < |memory| && o < |memory|
      requires a != b && o != a && o != b
      modifies this
      ensures memory == old(memory)[o := !(old(memory)[a] || old(memory)[b])]
      ensures latency == old(latency) + 2
    {
      Perform(INIT1, [], [o]);
      Perform(NOR, [a, b], [o]);
    }
  }
}
