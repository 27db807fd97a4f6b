/** The code of the synchronous disk for those steps (filesys/synchdisk.cc, machine/disk.cc), on fields
    updated in place. The lock's own code is in SynchList.dfy; here it is the value m. */
module SynchDisks {
  import opened Words
  import opened Disks
  import M = MonitorSpec
  import opened SynchDiskSpec

  class SynchDiskDriver {
    var m: M.Monitor
    var semaphore: nat
    // the disk, and its entries in the interrupt queue
    var active: bool
    var interrupts: nat
    var image: Image
    /** What each thread is at. */
    ghost var jobs: map<nat, Job>

    ghost function State(): SynchDisk
      reads this
    {
      SynchDisk(m, semaphore, active, interrupts, image, jobs)
    }

    constructor (image: Image)
      ensures State() == Initial(image)
    {
      m, semaphore, active, interrupts := M.Initial(), 0, false, 0;
      this.image := image;
      jobs := map[];
    }

    /** The start of ReadSector or WriteSector, at the lock. */
    method Start(thread: nat, ghost op: Operation)
      requires Enabled(State(), thread, Event.Start(op))
      modifies this
      ensures State() == Next(old(State()), thread, Event.Start(op))
      ensures JobOf(State(), thread) == Requesting(op) && image == old(image)
    {
      m := M.Next(m, thread, M.Call);
      jobs := jobs[thread := Requesting(op)];
    }

    /** The end of either: the lock is let go. */
    method Leave(thread: nat)
      requires Enabled(State(), thread, Event.Leave)
      modifies this
      ensures State() == Next(old(State()), thread, Event.Leave)
    {
      m := M.Next(m, thread, M.Release);
      jobs := jobs[thread := Idle];
    }

    /** Disk::ReadRequest: the transfer, and an interrupt to tell that it is done. */
    method ReadRequest(thread: nat, sector: nat) returns (data: Sector)
      requires Enabled(State(), thread, Request) && JobOf(State(), thread).op == Read(sector) && sector < NUM_SECTORS
      requires !active
      modifies this
      ensures State() == Next(old(State()), thread, Request) && data == JobOf(State(), thread).result
    {
      assert !active;
      data := image[sector];
      active := true;
      interrupts := interrupts + 1;
      jobs := jobs[thread := Pending(Read(sector), data)];
    }

    method WriteRequest(thread: nat, sector: nat, data: Sector)
      requires Enabled(State(), thread, Request) && JobOf(State(), thread).op == Write(sector, data) && sector < NUM_SECTORS
      requires !active
      modifies this
      ensures State() == Next(old(State()), thread, Request)
    {
      assert !active;
      image := image[sector := data];
      active := true;
      interrupts := interrupts + 1;
      jobs := jobs[thread := Pending(Write(sector, data), data)];
    }

    /** Disk::CallBack, and through it SynchDisk::CallBack, which does V. */
    method CallBack(ghost thread: nat)
      requires Enabled(State(), thread, Interrupt)
      modifies this
      ensures State() == Next(old(State()), thread, Interrupt)
    {
      interrupts := interrupts - 1;
      active := false;
      semaphore := semaphore + 1;
    }

    /** The end of the P on the semaphore, in ReadSector and WriteSector. */
    method EndWait(thread: nat)
      requires Enabled(State(), thread, Event.EndWait)
      modifies this
      ensures State() == Next(old(State()), thread, Event.EndWait)
    {
      semaphore := semaphore - 1;
      jobs := jobs[thread := Finished(jobs[thread].op, jobs[thread].result)];
    }
  }
}
