/** `AgentMemoryBudget`, `MemoryManager` and `ScopedMemoryReservation` as the C++ runs them. */
module MemoryManagers {
  import opened Bytes
  import opened MemoryBlocks
  import opened Budgets
  import Arenas
  import BlockPools

  class AgentMemoryBudget {
    const limit: u64
    var used: u64
    var peak: u64

    ghost function View(): Budget
      reads this
    {
      Budget(limit, used, peak)
    }

    constructor (limit: u64)
      ensures View() == Budget(limit, 0, 0)
    {
      this.limit, used, peak := limit, 0, 0;
    }

    method ReserveBytes(count: u64) returns (ok: bool)
      modifies this
      ensures (View(), ok) == Reserve(old(View()), count)
    {
      if U64(used + count) > limit {
        return false;
      }
      used := U64(used + count);
      peak := if peak >= used then peak else used;
      return true;
    }

    method ReleaseBytes(count: u64)
      modifies this
      ensures View() == Release(old(View()), count)
    {
      if count >= used {
        used := 0;
        return;
      }
      used := used - count;
    }
  }

  /** Everything a manager keeps. */
  datatype Memory = Memory(book: Book, global: Arenas.Arena, scratch: Arenas.Arena, pool: BlockPools.Pool)

  class MemoryManager {
    const globalArena: Arenas.MemoryArena
    const scratchArena: Arenas.MemoryArena
    const messagePool: BlockPools.FixedBlockPool
    var agentBudgets: map<bytes, AgentMemoryBudget>

    ghost function Parts(): set<object>
      reads this
    {
      {globalArena, scratchArena, messagePool} + agentBudgets.Values
    }

    ghost function BookNow(): Book
      reads this, agentBudgets.Values
    {
      map a | a in agentBudgets :: agentBudgets[a].View()
    }

    ghost function View(): Memory
      reads this, Parts()
    {
      Memory(BookNow(), globalArena.View(), scratchArena.View(), messagePool.View())
    }

    ghost predicate Valid()
      reads this, Parts()
    {
      && globalArena != scratchArena && this as object !in Parts()
      && (forall a, b | a in agentBudgets && b in agentBudgets && agentBudgets[a] == agentBudgets[b] :: a == b)
      && messagePool.Valid()
    }

    /** The sizes of the configuration, and where the three pieces of storage came to lie. */
    constructor (globalBase: u64, globalSize: u64, scratchBase: u64, scratchSize: u64,
                 poolBase: nat, blockSize: u64, blockCount: u64)
      requires globalBase + globalSize <= TWO64 && scratchBase + scratchSize <= TWO64
      requires U64(blockSize * blockCount) > 0 ==> poolBase > 0
      ensures Valid() && fresh(this) && fresh(Parts())
      ensures View() == Memory(map[], Arenas.Arena(globalBase, globalSize, 0, 0), Arenas.Arena(scratchBase, scratchSize, 0, 0),
                               BlockPools.NewPool(blockSize, blockCount, poolBase))
    {
      globalArena := new Arenas.MemoryArena(globalBase, globalSize);
      scratchArena := new Arenas.MemoryArena(scratchBase, scratchSize);
      messagePool := new BlockPools.FixedBlockPool(blockSize, blockCount, poolBase);
      agentBudgets := map[];
    }

    method AllocateGlobal(size: u64, alignment: u64) returns (b: Block)
      requires Valid()
      modifies globalArena
      ensures Valid()
      ensures var (a, block) := Arenas.Allocate(old(View()).global, size, alignment);
              b == block && View() == old(View()).(global := a)
    {
      b := globalArena.AllocateBlock(size, alignment);
    }

    method AllocateScratch(size: u64, alignment: u64) returns (b: Block)
      requires Valid()
      modifies scratchArena
      ensures Valid()
      ensures var (a, block) := Arenas.Allocate(old(View()).scratch, size, alignment);
              b == block && View() == old(View()).(scratch := a)
    {
      b := scratchArena.AllocateBlock(size, alignment);
    }

    method ResetScratch()
      requires Valid()
      modifies scratchArena
      ensures Valid() && View() == old(View()).(scratch := Arenas.Reset(old(View()).scratch))
    {
      scratchArena.ResetArena();
    }

    method AllocateMessage() returns (b: Block)
      requires Valid()
      modifies messagePool
      ensures Valid()
      ensures var (p, block) := BlockPools.Allocate(old(View()).pool);
              b == block && View() == old(View()).(pool := p)
    {
      b := messagePool.AllocateBlock();
    }

    method FreeMessage(ptr: nat) returns (ok: bool)
      requires Valid()
      modifies messagePool
      ensures Valid()
      ensures var (p, freed) := BlockPools.Free(old(View()).pool, ptr);
              ok == freed && View() == old(View()).(pool := p)
    {
      ok := messagePool.FreeBlock(ptr);
    }

    method SetAgentBudget(agent: bytes, limit: u64)
      requires Valid()
      modifies this
      ensures Valid() && View() == old(View()).(book := SetBudget(old(View()).book, agent, limit))
      ensures fresh(Parts() - old(Parts()))
    {
      var budget := new AgentMemoryBudget(limit);
      agentBudgets := agentBudgets[agent := budget];
      assert BookNow() == SetBudget(old(View()).book, agent, limit);
    }

    method ReserveAgentMemory(agent: bytes, count: u64) returns (ok: bool)
      requires Valid()
      modifies agentBudgets.Values
      ensures Valid()
      ensures var (book, reserved) := ReserveFor(old(View()).book, agent, count);
              ok == reserved && View() == old(View()).(book := book)
    {
      if agent !in agentBudgets {
        return false;
      }
      ok := agentBudgets[agent].ReserveBytes(count);
      assert BookNow() == ReserveFor(old(View()).book, agent, count).0;
    }

    method ReleaseAgentMemory(agent: bytes, count: u64)
      requires Valid()
      modifies agentBudgets.Values
      ensures Valid() && View() == old(View()).(book := ReleaseFor(old(View()).book, agent, count))
    {
      if agent !in agentBudgets {
        return;
      }
      agentBudgets[agent].ReleaseBytes(count);
      assert BookNow() == ReleaseFor(old(View()).book, agent, count);
    }
  }

  class ScopedMemoryReservation {
    const manager: MemoryManager
    const agent: bytes
    const count: u64
    var reserved: bool

    ghost function View(): Reservation
      reads this
    {
      Reservation(agent, count, reserved)
    }

    constructor (manager: MemoryManager, agent: bytes, count: u64)
      requires manager.Valid()
      modifies manager.agentBudgets.Values
      ensures manager.Valid() && this.manager == manager
      ensures var (book, r) := Open(old(manager.View()).book, agent, count);
              View() == r && manager.View() == old(manager.View()).(book := book)
    {
      hide BlockPools.Pool.Agrees;
      this.manager, this.agent, this.count := manager, agent, count;
      reserved := false;
      new;
      reserved := manager.ReserveAgentMemory(agent, count);
    }

    /** The destructor. */
    method Destroy()
      requires manager.Valid()
      modifies manager.agentBudgets.Values
      ensures manager.Valid()
      ensures manager.View() == old(manager.View()).(book := Close(old(manager.View()).book, old(View())))
    {
      if reserved {
        manager.ReleaseAgentMemory(agent, count);
      }
    }
  }
}
