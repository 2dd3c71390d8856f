/**
 FlashCodeInstall as a class. The device is a NOR flash; `fails` is whether it
 reports an error for the operation.
 */
module FlashInstall {
  import opened Numbers
  import opened InstallModel
  import opened NorFlash

  class FlashCodeInstall {
    const device: NorDevice
    /** OFFSET_UIMAGE and the sector size. */
    const image: nat
    const sector: nat
    var firmwareSize: nat
    var eraseSize: nat
    var writeCount: nat
    var chunkState: ChunkState

    ghost function Model(): Installer
      reads this, device, device.flash
    {
      Installer(device.flash[..], firmwareSize, eraseSize, writeCount, chunkState)
    }

    constructor (device: NorDevice, image: nat, sector: nat)
      ensures this.device == device && this.image == image && this.sector == sector
      ensures Model() == Installer(device.flash[..], 0, 0, 0, ChunkStart)
    {
      this.device, this.image, this.sector := device, image, sector;
      firmwareSize, eraseSize, writeCount, chunkState := 0, 0, 0, ChunkStart;
    }

    /** while (!FlashCode::Erase(...)); the device refuses a range that leaves the flash. */
    method EraseAll(at: nat, n: nat) returns (inside: bool)
      modifies device`work, device.flash
      ensures inside <==> at + n <= device.flash.Length
      ensures SameAround(old(device.flash[..]), device.flash[..], at, n)
      ensures inside ==> Blank(device.flash[..], at, n)
    {
      inside := at + n <= device.flash.Length;
      if !inside {
        return;
      }
      ghost var before := device.flash[..];
      var done := device.Erase(at, n);
      while !done
        invariant SameAround(before, device.flash[..], at, n)
        invariant done ==> Blank(device.flash[..], at, n)
        decreases !done, device.work
      {
        done := device.Erase(at, n);
      }
    }

    /** while (!FlashCode::Write(...)); the device refuses a range that leaves the flash. */
    method WriteAll(at: nat, data: seq<bv8>) returns (inside: bool)
      modifies device`work, device.flash
      ensures inside <==> at + |data| <= device.flash.Length
      ensures SameAround(old(device.flash[..]), device.flash[..], at, |data|)
      ensures inside ==> Cleared(old(device.flash[..]), device.flash[..], at, data)
    {
      inside := at + |data| <= device.flash.Length;
      if !inside {
        return;
      }
      ghost var before := device.flash[..];
      var done := false;
      PartialStart(before, at, data);
      while !done
        invariant Partial(before, device.flash[..], at, data)
        invariant done ==> Cleared(before, device.flash[..], at, data)
        decreases !done, device.work
      {
        ghost var f := device.flash[..];
        done := device.Write(at, data);
        PartialStep(before, f, at, data, Outcome(device.flash[..], done));
      }
    }

    /** Erase. */
    method Erase(n: nat, fails: bool) returns (ok: bool)
      requires n < UINT32 && sector > 0
      modifies this, device`work, device.flash
      ensures ok <==> !fails && image + DivisionRounded(n, sector) <= device.flash.Length
      ensures var r := Report(device.flash[..], ok);
              && EraseReport(old(device.flash[..]), image, DivisionRounded(n, sector), r)
              && (Model(), ok) == InstallModel.Erase(old(Model()), n, sector, r)
    {
      firmwareSize := n;
      writeCount := 0;
      eraseSize := DivisionRounded(firmwareSize, sector);
      var inside := EraseAll(image, eraseSize);
      ok := inside && !fails;
      if ok {
        chunkState := ChunkWrite;
      }
    }

    /** WriteChunk; `written` is left alone when the chunk is refused. */
    method WriteChunk(chunk: seq<bv8>, written0: nat, fails: bool) returns (ok: bool, written: nat)
      requires |chunk| < UINT32
      modifies `writeCount, device`work, device.flash
      ensures ok <==> old(ChunkFits(Model(), |chunk|)) && !fails
                      && image + old(writeCount) + |chunk| <= device.flash.Length
      ensures var r := Report(device.flash[..], ok);
              && (old(ChunkFits(Model(), |chunk|)) ==>
                    WriteReport(old(device.flash[..]), image + old(writeCount), chunk, r))
              && (Model(), ok) == InstallModel.WriteChunk(old(Model()), chunk, r)
      ensures written == if old(ChunkFits(Model(), |chunk|)) then writeCount else written0
    {
      if (writeCount + |chunk|) % UINT32 > firmwareSize {
        ok, written := false, written0;
      } else {
        var inside := WriteAll(image + writeCount, chunk);
        writeCount := (writeCount + |chunk|) % UINT32;
        ok, written := inside && !fails, writeCount;
      }
    }

    method WriteChunkComplete() returns (ok: bool, count: nat)
      modifies `writeCount, `chunkState
      ensures (Model(), ok) == Complete(old(Model())) && count == old(writeCount)
    {
      count := writeCount;
      writeCount := 0;
      var state := chunkState;
      chunkState := ChunkStart;
      ok := state == ChunkWrite && firmwareSize == count;
    }
  }
}
