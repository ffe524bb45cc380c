/** The doubly linked task list of src/task/task.c and its cursor, updated in place. */
module Tasks {
  import opened Machine
  import opened PageTables
  import opened TaskRing
  import opened System
  import opened ElfLoader

  /** struct process_arguments */
  class ProcessArguments {
    var argc: nat
    var argv: Word

    constructor ()
      ensures argc == 0 && argv == 0
    {
      argc, argv := 0, 0;
    }
  }

  /** struct process; address is where the record lies in the kernel heap. */
  class Process {
    const address: Word
    const id: nat
    var task: Task?
    const allocations: array<Allocation>
    const elfFile: ElfFile
    const stack: Word
    const arguments: ProcessArguments

    /** A record fresh from kzalloc, with its slot, program and stack filled in. */
    constructor (address: Word, id: nat, elfFile: ElfFile, stack: Word)
      ensures this.address == address && this.id == id && this.elfFile == elfFile && this.stack == stack
      ensures task == null && fresh(allocations) && allocations[..] == EmptyLedger() && fresh(arguments)
    {
      this.address := address;
      this.id := id;
      this.elfFile := elfFile;
      this.stack := stack;
      task := null;
      arguments := new ProcessArguments();
      allocations := new Allocation[MAX_ALLOCATIONS](_ => NO_ALLOCATION);
      new;
      assert allocations[..] == EmptyLedger();
    }

    /** process_find_free_allocation_index for ptr 0; process_get_allocation_by_addr, and
        process_is_process_pointer by its sign, otherwise. */
    method FindAllocation(ptr: Word) returns (index: int)
      ensures index == FindPtr(allocations[..], ptr)
    {
      index := 0;
      while index < allocations.Length
        invariant 0 <= index <= allocations.Length
        invariant FindPtrFrom(allocations[..], ptr, index) == FindPtr(allocations[..], ptr)
      {
        if allocations[index].ptr == ptr {
          return;
        }
        index := index + 1;
      }
      index := -1;
    }

    /** process_allocation_unjoin */
    method AllocationUnjoin(ptr: Word)
      modifies allocations
      ensures allocations[..] == Unjoin(old(allocations[..]), ptr)
    {
      for i := 0 to allocations.Length
        invariant forall j :: 0 <= j < allocations.Length ==>
          allocations[j] == if j < i && old(allocations[j]).ptr == ptr then NO_ALLOCATION else old(allocations[j])
      {
        if allocations[i].ptr == ptr {
          allocations[i] := NO_ALLOCATION;
        }
      }
    }
  }

  /** struct task; dir says where the page tables its pageDirectory leads to lie. */
  class Task {
    const address: Word
    const pageDirectory: Word
    const process: Process
    var next: Task?
    var prev: Task?
    ghost const dir: Dir

    constructor (address: Word, pageDirectory: Word, process: Process, ghost dir: Dir)
      ensures this.address == address && this.pageDirectory == pageDirectory
      ensures this.process == process && this.dir == dir && next == null && prev == null
    {
      this.address := address;
      this.pageDirectory := pageDirectory;
      this.process := process;
      this.dir := dir;
      next, prev := null, null;
    }
  }

  /** The k-th task of a list, or null beyond its ends. */
  ghost function At(l: seq<Task>, k: int): Task? {
    if 0 <= k < |l| then l[k] else null
  }

  /** A possibly null task pointer as an option. */
  ghost function Cursor(t: Task?): Option<Task> {
    if t == null then None else Some(t)
  }

  lemma AtRemoved(l: seq<Task>, task: Task)
    requires task in l
    ensures forall k :: At(Remove(l, task), k) == At(l, if k < IndexOf(l, task) then k else k + 1)
  {
  }

  /** The globals task_head, task_tail and current_task. */
  class TaskList {
    var head: Task?
    var tail: Task?
    var current: Task?
    ghost var list: seq<Task>

    ghost predicate NextLinks()
      reads this, list
    {
      forall i {:trigger list[i].next} :: 0 <= i < |list| ==> list[i].next == At(list, i + 1)
    }

    ghost predicate PrevLinks()
      reads this, list
    {
      forall i {:trigger list[i].prev} :: 0 <= i < |list| ==> list[i].prev == At(list, i - 1)
    }

    ghost predicate Ends()
      reads this
    {
      && head == At(list, 0) && tail == At(list, |list| - 1)
      && (list == [] ==> current == null)
      && (list != [] ==> current != null && current in list)
    }

    ghost predicate Valid()
      reads this, list
    {
      Distinct(list) && NextLinks() && PrevLinks() && Ends()
    }

    constructor ()
      ensures Valid() && list == []
    {
      head, tail, current, list := null, null, null, [];
    }

    /** The list part of task_new. */
    method Append(task: Task)
      requires Valid() && task !in list && task.next == null && task.prev == null
      modifies this, list, task
      ensures Valid() && list == old(list) + [task]
      ensures current == if old(list) == [] then task else old(current)
    {
      list := list + [task];
      if head == null {
        head := task;
        tail := task;
        current := task;
        return;
      }
      tail.next := task;
      task.prev := tail;
      tail := task;
    }

    /** task_get_next */
    method GetNext() returns (task: Task)
      requires Valid() && current != null
      ensures task == Next<Task>(list, current)
    {
      IndexIs(list, IndexOf(list, current));
      if current.next == null {
        return head;
      }
      return current.next;
    }

    /** task_list_remove with the missing task->next->prev update supplied: the list loses
        exactly this task and stays doubly linked, and the cursor moves on if it was here. */
    method ListRemove(task: Task)
      requires Valid() && task in list
      modifies this, list
      ensures Valid() && list == Remove<Task>(old(list), task)
      ensures old(current) != null && Cursor(current) == CurrentAfter<Task>(old(list), old(current), task)
      ensures forall t :: t in old(list) && t != task ==> t in list
    {
      CurrentAfterIsLive(list, current, task);
      ghost var i, n := IndexOf(list, task), |list|;
      assert task.next == At(list, i + 1) && head == At(list, 0);
      Unlink(task);
      if task == current {
        current := if current.next == null then head else current.next;
      }
    }

    /** The pointer updates of task_list_remove, before the cursor is looked at. */
    method Unlink(task: Task)
      requires Valid() && task in list
      modifies this, list
      ensures list == Remove<Task>(old(list), task) && current == old(current) && task.next == old(task.next)
      ensures Distinct(list) && NextLinks() && PrevLinks() && head == At(list, 0) && tail == At(list, |list| - 1)
      ensures forall t :: t in old(list) && t != task ==> t in list
    {
      hide IndexOf, Distinct;
      ghost var i, l := IndexOf(list, task), list;
      RemoveElements(list, task);
      OthersDiffer(list, i);
      if task.prev != null {
        task.prev.next := task.next;
      }
      if task.next != null {
        task.next.prev := task.prev;
      }
      if task == head {
        head := task.next;
      }
      if task == tail {
        tail := task.prev;
      }
      list := l[..i] + l[i + 1..];
      Relinked(l, i);
    }

    /** With task i of l bypassed in both directions, the rest of l is doubly linked. */
    lemma Relinked(l: seq<Task>, i: nat)
      requires i < |l| && list == l[..i] + l[i + 1..]
      requires forall j {:trigger l[j].next} :: 0 <= j < |l| && j != i ==>
        l[j].next == At(l, if j + 1 == i then i + 1 else j + 1)
      requires forall j {:trigger l[j].prev} :: 0 <= j < |l| && j != i ==>
        l[j].prev == At(l, if j == i + 1 then i - 1 else j - 1)
      ensures NextLinks() && PrevLinks()
    {
      forall j | 0 <= j < |list|
        ensures list[j].next == At(list, j + 1) && list[j].prev == At(list, j - 1)
      {
        assert list[j] == l[if j < i then j else j + 1];
        assert At(list, j + 1) == At(l, if j + 1 < i then j + 1 else j + 2);
        assert At(list, j - 1) == At(l, if j <= i then j - 1 else j);
      }
    }

    lemma OthersDiffer(l: seq<Task>, i: nat)
      requires Distinct(l) && i < |l|
      ensures forall j :: 0 <= j < |l| && j != i ==> l[j] != l[i]
      ensures i > 0 ==> forall j :: 0 <= j < |l| && j != i - 1 ==> l[j] != l[i - 1]
      ensures i + 1 < |l| ==> forall j :: 0 <= j < |l| && j != i + 1 ==> l[j] != l[i + 1]
    {
    }

    /** task_list_remove as written: the successor keeps pointing back at the removed task,
        so the list stays doubly linked exactly when the task had no successor. */
    method ListRemoveAsWritten(task: Task)
      requires Valid() && task in list
      modifies this, list
      ensures list == Remove<Task>(old(list), task)
      ensures Valid() <==> old(task.next) == null
    {
      ghost var i, l := IndexOf(list, task), list;
      RemoveElements(list, task);
      CurrentAfterIsLive(list, current, task);
      AtRemoved(list, task);
      if task.prev != null {
        task.prev.next := task.next;
      }
      if task == head {
        head := task.next;
      }
      if task == tail {
        tail := task.prev;
      }
      if task == current {
        current := if current.next == null then head else current.next;
      }
      list := l[..i] + l[i + 1..];
      assert i + 1 < |l| ==> list[i].prev == task;
    }

    /** task_switch, without the CR3 load. */
    method Switch(task: Task)
      requires Valid() && task in list
      modifies this`current
      ensures Valid() && current == task && list == old(list)
    {
      current := task;
    }

    /** task_next, which the source declares but does not define: switch to the task
        task_get_next returns. */
    method TaskNext()
      requires Valid() && current != null
      modifies this`current
      ensures Valid() && list == old(list) && current == Next<Task>(list, old(current))
    {
      var task := GetNext();
      Switch(task);
    }
  }
}
