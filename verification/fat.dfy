/** Recognising a FAT file system from its boot sector (tools/fat.c, with
    the byte helpers of tools/linux_util.h): the BIOS parameter block is
    read, checked the way the Linux kernel checks it, and classified as
    FAT12, FAT16 or FAT32.

    The boot sector is `struct fat_boot_sector` of the Linux UAPI header
    <linux/msdos_fs.h>, which is not part of this model; its field offsets
    are written out below. */
module Fat {
  import opened Bytes

  // ---------------------------------------------------------------------
  // linux_util.h.

  /** `get_unaligned_le16(p)`: `p[0] | p[1] << 8`. */
  function GetLe16(p: seq<byte>): (r: nat)
    requires |p| >= 2
    ensures r < TWO_16
    ensures r % 256 == p[0] && r / 256 == p[1]
  {
    Le16Bound(p, 0);
    DivMod256(Le16At(p, 0), p[0], p[1]);
    Le16At(p, 0)
  }

  /** `get_unaligned_le32(p)`: `p[0] | p[1] << 8 | p[2] << 16 | p[3] << 24`. */
  function GetLe32(p: seq<byte>): (r: nat)
    requires |p| >= 4
    ensures r < TWO_32
    ensures r % 256 == p[0] && r / 256 % 256 == p[1] && r / 0x1_0000 % 256 == p[2] && r / 0x100_0000 == p[3]
  {
    Le32Bound(p, 0);
    var v := Le32At(p, 0);
    DivMod256(v, p[0], p[1] as nat + 256 * (p[2] as nat + 256 * p[3] as nat));
    DivMod256(v / 256, p[1], p[2] as nat + 256 * p[3] as nat);
    assert v / 0x1_0000 == (v / 256) / 256;
    DivMod256(v / 0x1_0000, p[2], p[3] as nat);
    assert v / 0x100_0000 == (v / 0x1_0000) / 256;
    v
  }

  /** The little-endian helpers invert the byte split of a value. */
  lemma GetLeRoundTrip(v: nat)
    requires v < TWO_32
    ensures GetLe32(Le32Bytes(v)) == v
    ensures v < TWO_16 ==> GetLe16([(v % 256) as byte, (v / 256) as byte]) == v
  {
    Le32RoundTrip(v);
  }

  /** A power of two, 2^k for some k. */
  predicate IsPowerOf2(n: nat)
  {
    n == 1 || (n >= 2 && n % 2 == 0 && IsPowerOf2(n / 2))
  }

  /** `a & b` on naturals, bit by bit from the least significant. */
  function BitAnd(a: nat, b: nat): (r: nat)
    ensures r <= a && r <= b
  {
    if a == 0 || b == 0 then 0 else 2 * BitAnd(a / 2, b / 2) + (a % 2) * (b % 2)
  }

  /** `is_power_of_2(n)`: `n != 0 && (n & (n - 1)) == 0`.  The argument is
      an `unsigned long` and `n - 1` is only taken for `n != 0`, so no
      wrap-around is involved. */
  predicate IsPowerOfTwoC(n: nat)
  {
    n != 0 && BitAnd(n, n - 1) == 0
  }

  /** A number and itself share every bit. */
  lemma {:induction false} BitAndSelf(a: nat)
    ensures BitAnd(a, a) == a
  {
    if a != 0 {
      BitAndSelf(a / 2);
    }
  }

  /** The bit test holds exactly for the powers of two; zero is not one. */
  lemma {:induction false} PowerOfTwoAgrees(n: nat)
    ensures !IsPowerOfTwoC(0)
    ensures IsPowerOfTwoC(n) <==> IsPowerOf2(n)
  {
    if n >= 2 {
      var m := n / 2;
      if n % 2 == 0 {
        assert (n - 1) / 2 == m - 1 && (n - 1) % 2 == 1;
        assert BitAnd(n, n - 1) == 2 * BitAnd(m, m - 1);
        PowerOfTwoAgrees(m);
      } else {
        assert (n - 1) / 2 == m && (n - 1) % 2 == 0;
        BitAndSelf(m);
        assert BitAnd(n, n - 1) == 2 * m;
      }
    }
  }

  // ---------------------------------------------------------------------
  // The boot sector.

  /** `sizeof(struct fat_boot_sector)`. */
  const BOOT_SECTOR_SIZE: nat := 90

  const OFF_SECTOR_SIZE: nat := 11
  const OFF_SEC_PER_CLUS: nat := 13
  const OFF_RESERVED: nat := 14
  const OFF_FATS: nat := 16
  const OFF_DIR_ENTRIES: nat := 17
  const OFF_SECTORS: nat := 19
  const OFF_MEDIA: nat := 21
  const OFF_FAT_LENGTH: nat := 22
  const OFF_TOTAL_SECT: nat := 32
  const OFF_FAT16_STATE: nat := 37
  const OFF_FAT16_VOL_ID: nat := 39
  const OFF_FAT32_LENGTH: nat := 36
  const OFF_FAT32_ROOT_CLUSTER: nat := 44
  const OFF_FAT32_INFO_SECTOR: nat := 48
  const OFF_FAT32_STATE: nat := 65
  const OFF_FAT32_VOL_ID: nat := 67

  /** `MAX_FAT12`: the most clusters a FAT12 volume has. */
  const MAX_FAT12: nat := 0xFF4

  /** `sizeof(struct msdos_dir_entry)`. */
  const DIR_ENTRY_SIZE: nat := 32

  /** `struct fat_bios_param_block`. */
  datatype Bpb = Bpb(
    sectorSize: nat, secPerClus: nat, reserved: nat, fats: nat,
    dirEntries: nat, sectors: nat, fatLength: nat, totalSect: nat,
    fat16State: nat, fat16VolId: nat,
    fat32Length: nat, fat32RootCluster: nat, fat32InfoSector: nat, fat32State: nat, fat32VolId: nat)

  /** `fat_valid_media(media)`. */
  predicate ValidMedia(media: byte)
  {
    0xf8 <= media || media == 0xf0
  }

  /** The media descriptors a FAT volume may carry: 0xF0 and 0xF8 to
      0xFF. */
  lemma ValidMediaValues(media: byte)
    ensures ValidMedia(media) <==> media in {0xf0, 0xf8, 0xf9, 0xfa, 0xfb, 0xfc, 0xfd, 0xfe, 0xff}
  {
  }

  /** The block `fat_read_bpb` fills in, before any check. */
  function ParamBlock(b: seq<byte>): (r: Bpb)
    requires |b| >= BOOT_SECTOR_SIZE
    ensures r.sectorSize < TWO_16 && r.reserved < TWO_16 && r.dirEntries < TWO_16
    ensures r.sectors < TWO_16 && r.fatLength < TWO_16 && r.secPerClus < TWO_8 && r.fats < TWO_8
    ensures r.totalSect < TWO_32 && r.fat32Length < TWO_32
  {
    Bpb(GetLe16(b[OFF_SECTOR_SIZE..]), b[OFF_SEC_PER_CLUS], GetLe16(b[OFF_RESERVED..]), b[OFF_FATS],
        GetLe16(b[OFF_DIR_ENTRIES..]), GetLe16(b[OFF_SECTORS..]), GetLe16(b[OFF_FAT_LENGTH..]),
        GetLe32(b[OFF_TOTAL_SECT..]),
        b[OFF_FAT16_STATE], GetLe32(b[OFF_FAT16_VOL_ID..]),
        GetLe32(b[OFF_FAT32_LENGTH..]), GetLe32(b[OFF_FAT32_ROOT_CLUSTER..]),
        GetLe16(b[OFF_FAT32_INFO_SECTOR..]), b[OFF_FAT32_STATE], GetLe32(b[OFF_FAT32_VOL_ID..]))
  }

  /** What a FAT boot sector must satisfy, stated with the arithmetic
      notion of a power of two. */
  predicate Plausible(p: Bpb, media: byte)
  {
    p.reserved != 0 && p.fats != 0 && ValidMedia(media) &&
    IsPowerOf2(p.sectorSize) && 512 <= p.sectorSize <= 4096 &&
    IsPowerOf2(p.secPerClus) &&
    !(p.fatLength == 0 && p.fat32Length == 0)
  }

  /** `fat_read_bpb(sb, b, silent, bpb)`: the block, and 0 when it looks
      like FAT or -EINVAL (-22) otherwise.  The checks run in the order
      reserved sectors, FAT count, media, sector size, sectors per cluster,
      FAT length; the messages are left out. */
  function ReadBpb(b: seq<byte>): (r: (int, Bpb))
    requires |b| >= BOOT_SECTOR_SIZE
    ensures r.1 == ParamBlock(b)
    ensures r.0 == 0 || r.0 == -22
    ensures r.0 == 0 <==> Plausible(r.1, b[OFF_MEDIA])
  {
    var p := ParamBlock(b);
    PowerOfTwoAgrees(p.sectorSize);
    PowerOfTwoAgrees(p.secPerClus);
    if p.reserved == 0 then (-22, p)
    else if p.fats == 0 then (-22, p)
    else if !ValidMedia(b[OFF_MEDIA]) then (-22, p)
    else if !IsPowerOfTwoC(p.sectorSize) || p.sectorSize < 512 || p.sectorSize > 4096 then (-22, p)
    else if !IsPowerOfTwoC(p.secPerClus) then (-22, p)
    else if p.fatLength == 0 && p.fat32Length == 0 then (-22, p)
    else (0, p)
  }

  /** A block that passes the checks can be divided by: its sector size
      is at least 512 and it has at least one sector per cluster. */
  lemma NoDivisionByZero(b: seq<byte>)
    requires |b| >= BOOT_SECTOR_SIZE && ReadBpb(b).0 == 0
    ensures ReadBpb(b).1.sectorSize >= 512 && ReadBpb(b).1.secPerClus >= 1
  {
  }

  // ---------------------------------------------------------------------
  // determine_FAT_bits.

  /** The first sector after the reserved sectors, the FATs and the root
      directory: `dir_start + rootdir_sectors`. */
  function DataStart(p: Bpb): (r: nat)
    requires p.sectorSize > 0
    ensures r >= p.reserved + p.fats * p.fatLength
  {
    p.reserved + p.fats * p.fatLength + p.dirEntries * DIR_ENTRY_SIZE / p.sectorSize
  }

  /** The sector count: the 16-bit field, or the 32-bit one when it is 0. */
  function TotalSectors(p: Bpb): (r: nat)
    ensures r == p.sectors || (p.sectors == 0 && r == p.totalSect)
    ensures p.sectors != 0 ==> r == p.sectors
  {
    if p.sectors == 0 then p.totalSect else p.sectors
  }

  /** `total_clusters` as the C code computes it: the difference is taken
      on 64-bit `unsigned long` and wraps below zero, and the quotient is
      cut to 32 bits. */
  function ClustersAsWritten(p: Bpb): (r: nat)
    requires p.sectorSize > 0 && p.secPerClus > 0
    ensures r < TWO_32
    ensures DataStart(p) <= TotalSectors(p) < TWO_32 ==> r == (TotalSectors(p) - DataStart(p)) / p.secPerClus
  {
    (TotalSectors(p) - DataStart(p)) % TWO_64 / p.secPerClus % TWO_32
  }

  /** `determine_FAT_bits(sector)` as written: 0 for a block that fails
      the checks, 32 when only the 32-bit FAT length is set, otherwise 16
      or 12 by the cluster count. */
  function DetermineFatBitsAsWritten(b: seq<byte>): (r: nat)
    requires |b| >= BOOT_SECTOR_SIZE
    ensures r in {0, 12, 16, 32}
    ensures r == 0 <==> !Plausible(ParamBlock(b), b[OFF_MEDIA])
    ensures r == 32 <==> Plausible(ParamBlock(b), b[OFF_MEDIA]) && ParamBlock(b).fatLength == 0
  {
    var (err, p) := ReadBpb(b);
    if err != 0 then 0
    else if p.fatLength == 0 && p.fat32Length != 0 then 32
    else if ClustersAsWritten(p) > MAX_FAT12 then 16
    else 12
  }

  /** The classification of a plausible block: FAT32 when the 16-bit FAT
      length is 0, otherwise by the number of data clusters, and no FAT
      at all when the reserved area, the FATs and the root directory do
      not fit in the volume. */
  function Classify(p: Bpb): (r: nat)
    requires p.sectorSize > 0 && p.secPerClus > 0
  {
    if p.fatLength == 0 then 32
    else if DataStart(p) > TotalSectors(p) then 0
    else if (TotalSectors(p) - DataStart(p)) / p.secPerClus > MAX_FAT12 then 16
    else 12
  }

  /** `determine_FAT_bits(sector)` with the data area checked: a volume
      smaller than its own metadata is no FAT volume. */
  function DetermineFatBits(b: seq<byte>): (r: nat)
    requires |b| >= BOOT_SECTOR_SIZE
    ensures r in {0, 12, 16, 32}
    ensures r != 0 ==> Plausible(ParamBlock(b), b[OFF_MEDIA])
    ensures Plausible(ParamBlock(b), b[OFF_MEDIA]) ==> r == Classify(ParamBlock(b))
  {
    var (err, p) := ReadBpb(b);
    if err != 0 then 0
    else if p.fatLength == 0 && p.fat32Length != 0 then 32
    else if DataStart(p) > TotalSectors(p) then 0
    else if ClustersAsWritten(p) > MAX_FAT12 then 16
    else 12
  }

  /** Wherever the data area fits, the two agree. */
  lemma DetermineAgrees(b: seq<byte>)
    requires |b| >= BOOT_SECTOR_SIZE
    requires ParamBlock(b).sectorSize > 0 && DataStart(ParamBlock(b)) <= TotalSectors(ParamBlock(b))
    ensures DetermineFatBitsAsWritten(b) == DetermineFatBits(b)
  {
  }

  /** A boot sector with one reserved sector, one FAT of one sector and no
      sectors at all passes every check; the subtraction wraps to nearly
      2^64 and it is reported as FAT16, where the corrected version
      rejects it. */
  lemma EmptyVolumeIsFat16()
    ensures var b := EmptyVolume();
      DetermineFatBitsAsWritten(b) == 16 && DetermineFatBits(b) == 0
  {
    var b := EmptyVolume();
    var p := ParamBlock(b);
    assert p.sectorSize == 512 && p.secPerClus == 1 && p.reserved == 1 && p.fats == 1;
    assert p.fatLength == 1 && p.dirEntries == 0 && p.sectors == 0 && p.totalSect == 0;
    SmallPowers();
    assert DataStart(p) == 2;
    assert ClustersAsWritten(p) == TWO_32 - 2;
  }

  /** The boot sector of that counterexample. */
  function EmptyVolume(): (r: seq<byte>)
    ensures |r| == BOOT_SECTOR_SIZE
  {
    Zeros(11) + [0x00, 0x02, 0x01, 0x01, 0x00, 0x01, 0x00, 0x00, 0x00, 0x00, 0xf8, 0x01, 0x00] + Zeros(66)
  }

  // ---------------------------------------------------------------------
  // The boot sectors of mkfs.vfat used as test vectors.

  /** The first 90 bytes of a FAT12 volume. */
  function Fat12Sector(): (r: seq<byte>)
    ensures |r| == BOOT_SECTOR_SIZE
  {
    [0xeb, 0x3c, 0x90, 0x6d, 0x6b, 0x66, 0x73, 0x2e, 0x66, 0x61] +
    [0x74, 0x00, 0x02, 0x40, 0x40, 0x00, 0x02, 0x00, 0x04, 0x00] +
    [0x00, 0xf8, 0x40, 0x00, 0x20, 0x00, 0x08, 0x00, 0x00, 0x00] +
    [0x00, 0x00, 0x00, 0x20, 0x03, 0x00, 0x80, 0x00, 0x29, 0x80] +
    [0xae, 0xcd, 0x62, 0x4e, 0x4f, 0x20, 0x4e, 0x41, 0x4d, 0x45] +
    [0x20, 0x20, 0x20, 0x20, 0x46, 0x41, 0x54, 0x31, 0x32, 0x20] +
    [0x20, 0x20, 0x0e, 0x1f, 0xbe, 0x5b, 0x7c, 0xac, 0x22, 0xc0] +
    [0x74, 0x0b, 0x56, 0xb4, 0x0e, 0xbb, 0x07, 0x00, 0xcd, 0x10] +
    [0x5e, 0xeb, 0xf0, 0x32, 0xe4, 0xcd, 0x16, 0xcd, 0x19, 0xeb]
  }

  /** The first 90 bytes of a FAT16 volume. */
  function Fat16Sector(): (r: seq<byte>)
    ensures |r| == BOOT_SECTOR_SIZE
  {
    [0xeb, 0x3c, 0x90, 0x6d, 0x6b, 0x66, 0x73, 0x2e, 0x66, 0x61] +
    [0x74, 0x00, 0x02, 0x04, 0x04, 0x00, 0x02, 0x00, 0x02, 0x00] +
    [0x00, 0xf8, 0xc8, 0x00, 0x20, 0x00, 0x08, 0x00, 0x00, 0x00] +
    [0x00, 0x00, 0x00, 0x20, 0x03, 0x00, 0x80, 0x00, 0x29, 0xe8] +
    [0x0b, 0x4a, 0x64, 0x4e, 0x4f, 0x20, 0x4e, 0x41, 0x4d, 0x45] +
    [0x20, 0x20, 0x20, 0x20, 0x46, 0x41, 0x54, 0x31, 0x36, 0x20] +
    [0x20, 0x20, 0x0e, 0x1f, 0xbe, 0x5b, 0x7c, 0xac, 0x22, 0xc0] +
    [0x74, 0x0b, 0x56, 0xb4, 0x0e, 0xbb, 0x07, 0x00, 0xcd, 0x10] +
    [0x5e, 0xeb, 0xf0, 0x32, 0xe4, 0xcd, 0x16, 0xcd, 0x19, 0xeb]
  }

  /** The first 90 bytes of a FAT32 volume. */
  function Fat32Sector(): (r: seq<byte>)
    ensures |r| == BOOT_SECTOR_SIZE
  {
    [0xeb, 0x58, 0x90, 0x6d, 0x6b, 0x66, 0x73, 0x2e, 0x66, 0x61] +
    [0x74, 0x00, 0x02, 0x01, 0x20, 0x00, 0x02, 0x00, 0x00, 0x00] +
    [0x00, 0xf8, 0x00, 0x00, 0x20, 0x00, 0x08, 0x00, 0x00, 0x00] +
    [0x00, 0x00, 0x00, 0x20, 0x03, 0x00, 0x28, 0x06, 0x00, 0x00] +
    [0x00, 0x00, 0x00, 0x00, 0x02, 0x00, 0x00, 0x00, 0x01, 0x00] +
    [0x06, 0x00, 0x00, 0x00, 0x00, 0x00, 0x00, 0x00, 0x00, 0x00] +
    [0x00, 0x00, 0x00, 0x00, 0x80, 0x00, 0x29, 0x2d, 0x2e, 0xb5] +
    [0x64, 0x4e, 0x4f, 0x20, 0x4e, 0x41, 0x4d, 0x45, 0x20, 0x20] +
    [0x20, 0x20, 0x46, 0x41, 0x54, 0x33, 0x32, 0x20, 0x20, 0x20]
  }

  /** A power of two for each sector size and cluster size used below. */
  lemma SmallPowers()
    ensures IsPowerOf2(1) && IsPowerOf2(4) && IsPowerOf2(64) && IsPowerOf2(512)
  {
    assert IsPowerOf2(2) && IsPowerOf2(4) && IsPowerOf2(8) && IsPowerOf2(16);
    assert IsPowerOf2(32) && IsPowerOf2(64) && IsPowerOf2(128) && IsPowerOf2(256);
  }

  /** The FAT12 volume has 3196 clusters. */
  lemma Fat12Vector()
    ensures DetermineFatBitsAsWritten(Fat12Sector()) == 12
  {
    SmallPowers();
    var p := ParamBlock(Fat12Sector());
    assert p.sectorSize == 512 && p.secPerClus == 64 && p.reserved == 64 && p.fats == 2;
    assert p.dirEntries == 1024 && p.sectors == 0 && p.fatLength == 64 && p.totalSect == 204800;
    assert DataStart(p) == 256;
  }

  /** The FAT16 volume has 51091 clusters. */
  lemma Fat16Vector()
    ensures DetermineFatBitsAsWritten(Fat16Sector()) == 16
  {
    SmallPowers();
    var p := ParamBlock(Fat16Sector());
    assert p.sectorSize == 512 && p.secPerClus == 4 && p.reserved == 4 && p.fats == 2;
    assert p.dirEntries == 512 && p.sectors == 0 && p.fatLength == 200 && p.totalSect == 204800;
    assert DataStart(p) == 436;
  }

  /** The FAT32 volume has only the 32-bit FAT length, and an all-zero
      sector has no reserved sectors. */
  lemma Fat32Vector()
    ensures DetermineFatBitsAsWritten(Fat32Sector()) == 32
    ensures DetermineFatBitsAsWritten(Zeros(BOOT_SECTOR_SIZE)) == 0
  {
    SmallPowers();
    var p := ParamBlock(Fat32Sector());
    assert p.sectorSize == 512 && p.secPerClus == 1 && p.reserved == 32 && p.fats == 2;
    assert p.fatLength == 0 && p.fat32Length == 1576;
    assert ParamBlock(Zeros(BOOT_SECTOR_SIZE)).reserved == 0;
  }
}
