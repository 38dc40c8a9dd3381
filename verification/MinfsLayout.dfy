/**
 How minfs_format divides a device (kernel/minfs.c): it guesses one bitmap sector and repeats
 until the guess is the number of sectors the remaining data blocks need. The loop has no
 bound in the source, so it is modelled as the outcome after k passes.
 */
module MinfsLayout {
  import MinfsDisk
  import MinfsTable

  const U32: nat := 0x1_0000_0000
  const MAX_NODES: nat := 128
  const TABLE_SECTORS: nat := 148
  const PER_SECTOR: nat := 4096

  datatype Outcome = TooSmall | Settled(sectors: nat) | Again(sectors: nat)

  function DataBlocks(blocks: nat, sectors: nat): nat {
    if blocks <= 1 + TABLE_SECTORS + sectors then 0 else (blocks - 1 - TABLE_SECTORS - sectors) % U32
  }

  function Needed(data: nat): nat { ((data + PER_SECTOR - 1) % U32) / PER_SECTOR }

  /** One pass of the loop, on a device of `blocks` sectors with a guess of `sectors`. */
  function Pass(blocks: nat, sectors: nat): Outcome {
    if blocks <= 1 + TABLE_SECTORS + sectors then TooSmall
    else
      var needed := Needed(DataBlocks(blocks, sectors));
      if needed == sectors then Settled(sectors) else Again(needed)
  }

  function Passes(blocks: nat, k: nat): Outcome {
    if k == 0 then Again(1)
    else
      var before := Passes(blocks, k - 1);
      if before.Again? then Pass(blocks, before.sectors) else before
  }

  datatype Super = Super(totalNodes: nat, tableStart: nat, tableSectors: nat, bitmapStart: nat, bitmapSectors: nat,
                         dataStart: nat, dataBlocks: nat, state: nat)

  /** The superblock the format writes. */
  function Formatted(blocks: nat, sectors: nat): Super {
    Super(MAX_NODES, 1, TABLE_SECTORS, 1 + TABLE_SECTORS, sectors, 1 + TABLE_SECTORS + sectors, DataBlocks(blocks, sectors), 0)
  }

  /** The geometry part of minfs_super_is_valid, the check that mounting makes. */
  predicate SuperValid(s: Super, blocks: nat) {
    && 0 < s.totalNodes <= MAX_NODES && s.tableStart == 1 && s.tableSectors != 0
    && s.bitmapStart == s.tableStart + s.tableSectors && s.bitmapSectors != 0
    && s.dataStart == s.bitmapStart + s.bitmapSectors && s.dataBlocks != 0
    && s.state <= 1 && s.dataStart + s.dataBlocks <= blocks
  }

  /** Sectors left for the bitmap and the data. */
  ghost function Room(blocks: nat): int { blocks - 1 - TABLE_SECTORS }

  /** Sizes at which the loop's 32-bit arithmetic does not wrap around. */
  ghost predicate Fits(blocks: nat) { blocks + PER_SECTOR <= U32 }

  /** The one guess that can be right. */
  ghost function Right(blocks: nat): nat { if Room(blocks) < 0 then 0 else (Room(blocks) + PER_SECTOR) / (PER_SECTOR + 1) }

  lemma PassArith(blocks: nat, b: nat)
    requires Fits(blocks) && 1 <= b < Room(blocks)
    ensures var p := Pass(blocks, b);
      && (p.Settled? || p.Again?) && p.sectors == (Room(blocks) - b + PER_SECTOR - 1) / PER_SECTOR
      && 1 <= p.sectors < Room(blocks)
      && (p.Settled? <==> p.sectors == b)
  {
    assert DataBlocks(blocks, b) == Room(blocks) - b;
  }

  /** A guess is its own successor only if it is the right one and the room is not one over a whole number of groups. */
  lemma FixedPoint(blocks: nat, b: nat)
    requires Fits(blocks) && 1 <= b < Room(blocks)
    ensures Pass(blocks, b).Settled? <==> b == Right(blocks) && Room(blocks) % (PER_SECTOR + 1) != 1
  {
    PassArith(blocks, b);
    var f := Room(blocks);
    assert Pass(blocks, b).Settled? <==> (PER_SECTOR + 1) * (b - 1) + 1 < f <= (PER_SECTOR + 1) * b;
  }

  /** One pass divides the distance from the right guess by 4096. */
  lemma Closer(blocks: nat, b: nat, m: nat)
    requires Fits(blocks) && 1 <= b < Room(blocks) && Room(blocks) % (PER_SECTOR + 1) != 1
    requires Right(blocks) - PER_SECTOR * m <= b <= Right(blocks) + PER_SECTOR * m
    ensures Right(blocks) - m <= Pass(blocks, b).sectors <= Right(blocks) + m
  {
    PassArith(blocks, b);
    var f, s := Room(blocks), Right(blocks);
    assert (PER_SECTOR + 1) * (s - 1) + 1 < f <= (PER_SECTOR + 1) * s;
    assert PER_SECTOR * (s - m - 1) < f - b <= PER_SECTOR * (s + m) by {
      assert f - s <= PER_SECTOR * s && f - s > PER_SECTOR * (s - 1);
    }
  }

  lemma CeilUnique(x: int, c: int)
    ensures c == (x + PER_SECTOR - 1) / PER_SECTOR <==> PER_SECTOR * (c - 1) < x <= PER_SECTOR * c
  {
  }

  /** From a distance of one, two passes arrive. */
  lemma LastStep(blocks: nat, b: nat)
    requires Fits(blocks) && 1 <= b < Room(blocks) && Room(blocks) % (PER_SECTOR + 1) != 1
    requires Right(blocks) - 1 <= b <= Right(blocks) + 1
    ensures var c := Pass(blocks, b).sectors;
      && 1 <= c < Room(blocks) && Pass(blocks, c).sectors == Right(blocks)
  {
    PassArith(blocks, b);
    var c := Pass(blocks, b).sectors;
    PassArith(blocks, c);
    var f, s := Room(blocks), Right(blocks);
    assert PER_SECTOR * (s - 1) < f - s <= PER_SECTOR * s;
    CeilUnique(f - b, c);
    CeilUnique(f - c, s);
  }

  /** Every pass gives another guess in range, or settles on the right one. */
  lemma {:induction false} InRange(blocks: nat, k: nat)
    requires Fits(blocks) && Room(blocks) >= 2
    ensures var p := Passes(blocks, k);
      && (p.Again? ==> 1 <= p.sectors < Room(blocks))
      && !p.TooSmall?
      && (p.Settled? ==> 1 <= p.sectors < Room(blocks) && p.sectors == Right(blocks) && Room(blocks) % (PER_SECTOR + 1) != 1)
  {
    if k > 0 {
      InRange(blocks, k - 1);
      var p := Passes(blocks, k - 1);
      if p.Again? {
        PassArith(blocks, p.sectors);
        FixedPoint(blocks, p.sectors);
      }
    }
  }

  /** After k passes the guess is within m of the right one, or the loop has ended with the right one. */
  ghost predicate Within(blocks: nat, k: nat, m: nat) {
    var p := Passes(blocks, k);
    p.Settled? || (p.Again? && Right(blocks) - m <= p.sectors <= Right(blocks) + m)
  }

  lemma WithinStep(blocks: nat, k: nat, m: nat)
    requires Fits(blocks) && Room(blocks) >= 2 && Room(blocks) % (PER_SECTOR + 1) != 1 && Within(blocks, k, PER_SECTOR * m)
    ensures Within(blocks, k + 1, m)
  {
    InRange(blocks, k);
    var p := Passes(blocks, k);
    if p.Again? {
      PassArith(blocks, p.sectors);
      Closer(blocks, p.sectors, m);
    }
  }

  /** If the room is not one over a whole number of groups, five passes are enough. */
  lemma Settles(blocks: nat)
    requires Fits(blocks) && Room(blocks) >= 2 && Room(blocks) % (PER_SECTOR + 1) != 1
    ensures Passes(blocks, 5) == Settled(Right(blocks))
  {
    assert Within(blocks, 0, PER_SECTOR * 256);
    WithinStep(blocks, 0, 256);
    assert Within(blocks, 1, PER_SECTOR * 1);
    WithinStep(blocks, 1, 1);
    InRange(blocks, 2);
    InRange(blocks, 3);
    InRange(blocks, 4);
    InRange(blocks, 5);
    if Passes(blocks, 2).Again? {
      var b := Passes(blocks, 2).sectors;
      LastStep(blocks, b);
      assert Passes(blocks, 3) == Pass(blocks, b);
      assert Passes(blocks, 4).sectors == Right(blocks);
      FixedPoint(blocks, Right(blocks));
    }
  }

  /**
   Formatting ends exactly on the devices that are large enough and whose room for bitmap and
   data is not one more than a multiple of 4097; it then ends within five passes with a layout
   that uses every sector, whose bitmap covers the data exactly, and that mounting accepts.
   */
  lemma LayoutExact(blocks: nat)
    requires Fits(blocks)
    ensures (exists k :: !Passes(blocks, k).Again?) <==> blocks < 151 || (blocks - 149) % 4097 != 1
    ensures blocks < 151 ==> Passes(blocks, 1).TooSmall?
    ensures blocks >= 151 && (blocks - 149) % 4097 != 1 ==>
      var b := Right(blocks);
      var s := Formatted(blocks, b);
      && b > 0 && Passes(blocks, 5) == Settled(b)
      && SuperValid(s, blocks) && s.dataStart + s.dataBlocks == blocks
      && 4096 * (b - 1) < s.dataBlocks <= 4096 * b
  {
    if Room(blocks) < 2 {
      assert Passes(blocks, 0) == Again(1);
      assert !Passes(blocks, 1).Again?;
    } else if Room(blocks) % (PER_SECTOR + 1) != 1 {
      Settles(blocks);
      InRange(blocks, 5);
      assert !Passes(blocks, 5).Again?;
      PassArith(blocks, Right(blocks));
      FixedPoint(blocks, Right(blocks));
    } else {
      forall k: nat ensures Passes(blocks, k).Again? { InRange(blocks, k); }
    }
  }

  /** The layout is one the filesystem can work with: nodes of 592 bytes fit the table, blocks their bits in sectors of 4096. */
  lemma FormattedGeo(blocks: nat)
    requires blocks + 4096 <= 0x1_0000_0000 && blocks >= 151 && (blocks - 149) % 4097 != 1
    ensures var s := Formatted(blocks, Right(blocks));
      && MinfsDisk.GeoOk(MinfsDisk.Geo(s.totalNodes, s.dataBlocks, s.tableSectors, s.bitmapSectors))
      && s.totalNodes == 128 && s.state == 0 && s.totalNodes * 592 <= s.tableSectors * 512 && s.dataBlocks <= s.bitmapSectors * 512 * 8
    ensures MinfsTable.NODE_WORDS * 4 == 592 && MinfsDisk.SECTOR_WORDS * 4 == MinfsTable.BLOCK_SIZE == 512 && MinfsDisk.SECTOR_BITS == 512 * 8
  {
    LayoutExact(blocks);
  }

  /** On a device of 4247 sectors the guess alternates between two and one for ever. */
  lemma EndlessExample(k: nat)
    ensures Passes(4247, k).Again?
  {
    LayoutExact(4247);
  }
}
