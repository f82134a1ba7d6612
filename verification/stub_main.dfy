/** The unified kernel stub's image layout (kernel-stub/main.c): the PE
    header located through the DOS header, the section table, the
    section-name scan that picks the command line, kernel, initrd and a
    matching built-in device tree, and the kernel entry point. */
module StubMain {
  import opened Wrappers
  import opened Bytes
  import Efi
  import Fdt

  /** The image is the stub's own loaded image, as bytes from `ImageBase`. */
  type Image = seq<byte>

  const DOS_PE_OFFSET: nat := 60
  const PE_NUMBER_OF_SECTIONS: nat := 6
  const PE_SIZE_OF_OPTIONAL_HEADER: nat := 20
  const PE_OPTIONAL_HEADER: nat := 24
  const PE_ADDRESS_OF_ENTRY_POINT: nat := 40
  const SECTION_SIZE: nat := 40

  /** ".cmdline": all eight name bytes. */
  const CMDLINE_NAME: seq<byte> := [0x2e, 0x63, 0x6d, 0x64, 0x6c, 0x69, 0x6e, 0x65]
  /** ".kernel" and its terminating NUL. */
  const KERNEL_NAME: seq<byte> := [0x2e, 0x6b, 0x65, 0x72, 0x6e, 0x65, 0x6c, 0x00]
  /** ".initrd" and its terminating NUL. */
  const INITRD_NAME: seq<byte> := [0x2e, 0x69, 0x6e, 0x69, 0x74, 0x72, 0x64, 0x00]
  /** ".dtb-", compared as a prefix. */
  const DTB_PREFIX: seq<byte> := [0x2e, 0x64, 0x74, 0x62, 0x2d]

  function Le16(s: seq<byte>, off: nat): (r: Option<nat>)
    ensures r.Some? <==> off + 2 <= |s|
  {
    if off + 2 <= |s| then Some(Le16At(s, off)) else None
  }

  function Le32(s: seq<byte>, off: nat): (r: Option<nat>)
    ensures r.Some? <==> off + 4 <= |s|
  {
    if off + 4 <= |s| then Some(Le32At(s, off)) else None
  }

  /** `get_pe_header`: the PE header's offset, the 32-bit field at byte 60
      of the DOS header. */
  function PeHeader(img: Image, base: nat): (r: Option<nat>)
    ensures r.Some? <==> base + DOS_PE_OFFSET + 4 <= |img|
    ensures r.Some? ==> r.value == base + Le32At(img, base + 60)
  {
    match Le32(img, base + DOS_PE_OFFSET)
    case None => None
    case Some(off) => Some(base + off)
  }

  /** One 40-byte section header: the name, VirtualSize and VirtualAddress. */
  datatype Section = Section(name: seq<byte>, virtualSize: nat, virtualAddress: nat)

  function SectionAt(img: Image, off: nat): (r: Option<Section>)
    ensures r.Some? <==> off + SECTION_SIZE <= |img|
    ensures r.Some? ==> r.value.name == img[off..off + 8] && |r.value.name| == 8
    ensures r.Some? ==> r.value.virtualSize == Le32At(img, off + 8) && r.value.virtualAddress == Le32At(img, off + 12)
  {
    if off + SECTION_SIZE <= |img| then
      Some(Section(img[off..off + 8], Le32At(img, off + 8), Le32At(img, off + 12)))
    else None
  }

  /** The `count` consecutive section headers from `off`. */
  function Sections(img: Image, off: nat, count: nat): (r: Option<seq<Section>>)
    ensures r.Some? <==> count == 0 || off + 40 * count <= |img|
    ensures r.Some? ==> |r.value| == count
    decreases count
  {
    if count == 0 then Some([])
    else
      var head := SectionAt(img, off);
      var tail := Sections(img, off + 40, count - 1);
      if head.None? || tail.None? then None
      else
        Some([head.value] + tail.value)
  }

  /** Entry `i` of the table is the header 40 * i bytes after its start. */
  lemma {:induction false} SectionsAt(img: Image, off: nat, count: nat, i: nat)
    requires Sections(img, off, count).Some? && i < count
    ensures SectionAt(img, off + 40 * i) == Some(Sections(img, off, count).value[i])
    decreases count
  {
    if i > 0 {
      SectionsAt(img, off + 40, count - 1, i - 1);
      assert off + 40 + 40 * (i - 1) == off + 40 * i;
    }
  }

  /** `get_sections` and the loop bound: the section table starts
      SizeOfOptionalHeader bytes after the optional header and holds
      NumberOfSections entries. */
  function SectionTable(img: Image): (r: Option<seq<Section>>)
    ensures r.Some? ==>
      && PeHeader(img, 0).Some?
      && var pe := PeHeader(img, 0).value;
      && pe + 22 <= |img|
      && |r.value| == Le16At(img, pe + 6)
      && r == Sections(img, pe + 24 + Le16At(img, pe + 20), Le16At(img, pe + 6))
  {
    var pe :- PeHeader(img, 0);
    var count :- Le16(img, pe + PE_NUMBER_OF_SECTIONS);
    var optSize :- Le16(img, pe + PE_SIZE_OF_OPTIONAL_HEADER);
    Sections(img, pe + PE_OPTIONAL_HEADER + optSize, count)
  }

  predicate IsDtb(name: seq<byte>)
  {
    |name| >= 5 && name[..5] == DTB_PREFIX
  }

  /** The section kinds the stub recognises. */
  datatype Kind = CmdlineSection | KernelSection | InitrdSection | DtbSection | OtherSection

  /** The comparisons of the section loop, in their order. */
  function KindOf(name: seq<byte>): (r: Kind)
    ensures r == CmdlineSection <==> name == CMDLINE_NAME
    ensures r == KernelSection <==> name == KERNEL_NAME
    ensures r == InitrdSection <==> name == INITRD_NAME
    ensures r == DtbSection <==> IsDtb(name)
  {
    assert IsDtb(name) ==> name[1] == name[..5][1] == 0x64;
    if name == CMDLINE_NAME then CmdlineSection
    else if name == KERNEL_NAME then KernelSection
    else if name == INITRD_NAME then InitrdSection
    else if IsDtb(name) then DtbSection
    else OtherSection
  }

  /** What the section scan collects. */
  datatype Layout = Layout(
    cmdline: Option<Section>,
    kernel: Option<Section>,
    initrd: Option<Section>,
    hasDtbs: bool,
    altFdt: Option<nat>)

  const NO_SECTIONS: Layout := Layout(None, None, None, false, None)

  /** The built-in device tree a ".dtb-" section points to. */
  function DtbBlob(img: Image, sec: Section): seq<byte>
  {
    if sec.virtualAddress <= |img| then img[sec.virtualAddress..] else []
  }

  /** One iteration of the section loop of `efi_main`. A ".dtb-" section
      is compared with the firmware's compatible string, which may end the
      stub (`match_fdt` exits on a missing firmware tree or an invalid
      built-in one). */
  function ScanStep(img: Image, compatible: Option<seq<byte>>, acc: Layout, sec: Section): (r: Result<Layout, Efi.Status>)
  {
    match KindOf(sec.name)
    case CmdlineSection => Success(acc.(cmdline := Some(sec)))
    case KernelSection => Success(acc.(kernel := Some(sec)))
    case InitrdSection => Success(acc.(initrd := Some(sec)))
    case DtbSection =>
      var matched :- Fdt.MatchFdt(DtbBlob(img, sec), compatible);
      Success(acc.(hasDtbs := true, altFdt := if matched then Some(sec.virtualAddress) else acc.altFdt))
    case OtherSection => Success(acc)
  }

  /** The section loop over `secs`, in table order. */
  function ScanSections(img: Image, compatible: Option<seq<byte>>, secs: seq<Section>, acc: Layout): (r: Result<Layout, Efi.Status>)
    decreases |secs|
  {
    if secs == [] then Success(acc)
    else
      var next :- ScanStep(img, compatible, acc, secs[0]);
      ScanSections(img, compatible, secs[1..], next)
  }

  // ---------------------------------------------------------------------
  // Reference view of the scan: the last section of each kind.

  /** The index of the last section satisfying `p`. */
  function LastWhere(secs: seq<Section>, p: Section -> bool): (r: Option<nat>)
    ensures r.Some? ==> r.value < |secs| && p(secs[r.value])
    ensures r.Some? ==> forall j :: r.value < j < |secs| ==> !p(secs[j])
    ensures r.None? ==> forall j :: 0 <= j < |secs| ==> !p(secs[j])
  {
    if secs == [] then None
    else match LastWhere(secs[1..], p)
      case Some(i) => Some(i + 1)
      case None => if p(secs[0]) then Some(0) else None
  }

  /** The last section satisfying `p`, or `dflt` when none does. */
  function LastOr(secs: seq<Section>, p: Section -> bool, dflt: Option<Section>): Option<Section>
  {
    match LastWhere(secs, p)
    case Some(i) => Some(secs[i])
    case None => dflt
  }

  function OfKind(k: Kind): Section -> bool
  {
    (s: Section) => KindOf(s.name) == k
  }

  /** A ".dtb-" section whose tree matches the firmware's. */
  function Matching(img: Image, compatible: Option<seq<byte>>): Section -> bool
  {
    (s: Section) => KindOf(s.name) == DtbSection && Fdt.MatchFdt(DtbBlob(img, s), compatible) == Success(true)
  }

  /** A ".dtb-" section that makes `match_fdt` exit. */
  predicate Fatal(img: Image, compatible: Option<seq<byte>>, s: Section)
  {
    KindOf(s.name) == DtbSection && Fdt.MatchFdt(DtbBlob(img, s), compatible).Failure?
  }

  function LastDtb(img: Image, compatible: Option<seq<byte>>, secs: seq<Section>, dflt: Option<nat>): Option<nat>
  {
    match LastWhere(secs, Matching(img, compatible))
    case Some(i) => Some(secs[i].virtualAddress)
    case None => dflt
  }

  /** The layout the scan should produce: the last ".cmdline", ".kernel"
      and ".initrd" sections (all eight name bytes compared), whether any
      ".dtb-" section exists, and the last built-in tree that matches. */
  function Expected(img: Image, compatible: Option<seq<byte>>, secs: seq<Section>, acc: Layout): Layout
  {
    Layout(
      LastOr(secs, OfKind(CmdlineSection), acc.cmdline),
      LastOr(secs, OfKind(KernelSection), acc.kernel),
      LastOr(secs, OfKind(InitrdSection), acc.initrd),
      acc.hasDtbs || exists j :: 0 <= j < |secs| && KindOf(secs[j].name) == DtbSection,
      LastDtb(img, compatible, secs, acc.altFdt))
  }

  lemma LastOrCons(secs: seq<Section>, p: Section -> bool, dflt: Option<Section>)
    requires secs != []
    ensures LastOr(secs, p, dflt) == LastOr(secs[1..], p, LastOr([secs[0]], p, dflt))
  {
    assert [secs[0]][1..] == [];
  }

  lemma LastDtbCons(img: Image, compatible: Option<seq<byte>>, secs: seq<Section>, dflt: Option<nat>)
    requires secs != []
    ensures LastDtb(img, compatible, secs, dflt) ==
      LastDtb(img, compatible, secs[1..], LastDtb(img, compatible, [secs[0]], dflt))
  {
    assert [secs[0]][1..] == [];
  }

  /** The expected layout of a table is that of its tail, started from the
      expected layout of its first section. */
  lemma ExpectedCons(img: Image, compatible: Option<seq<byte>>, secs: seq<Section>, acc: Layout)
    requires secs != []
    ensures Expected(img, compatible, secs, acc) ==
      Expected(img, compatible, secs[1..], Expected(img, compatible, [secs[0]], acc))
  {
    LastOrCons(secs, OfKind(CmdlineSection), acc.cmdline);
    LastOrCons(secs, OfKind(KernelSection), acc.kernel);
    LastOrCons(secs, OfKind(InitrdSection), acc.initrd);
    LastDtbCons(img, compatible, secs, acc.altFdt);
    AnyDtbCons(secs);
  }

  lemma AnyDtbCons(secs: seq<Section>)
    requires secs != []
    ensures (exists j :: 0 <= j < |secs| && KindOf(secs[j].name) == DtbSection) <==>
      KindOf(secs[0].name) == DtbSection || exists j :: 0 <= j < |secs[1..]| && KindOf(secs[1..][j].name) == DtbSection
  {
    if exists j :: 0 <= j < |secs| && KindOf(secs[j].name) == DtbSection {
      var j :| 0 <= j < |secs| && KindOf(secs[j].name) == DtbSection;
      if j > 0 {
        assert secs[1..][j - 1] == secs[j];
      }
    }
    if KindOf(secs[0].name) == DtbSection || exists j :: 0 <= j < |secs[1..]| && KindOf(secs[1..][j].name) == DtbSection {
      if KindOf(secs[0].name) != DtbSection {
        var j :| 0 <= j < |secs[1..]| && KindOf(secs[1..][j].name) == DtbSection;
        assert secs[j + 1] == secs[1..][j];
      }
    }
  }

  /** One scan step agrees with the expected layout of a one-section table. */
  lemma StepSpec(img: Image, compatible: Option<seq<byte>>, acc: Layout, s: Section)
    ensures ScanStep(img, compatible, acc, s).Success? <==> !Fatal(img, compatible, s)
    ensures ScanStep(img, compatible, acc, s).Failure? ==>
      ScanStep(img, compatible, acc, s).error == if compatible.None? then Efi.NotFound else Efi.InvalidParameter
    ensures ScanStep(img, compatible, acc, s).Success? ==>
      ScanStep(img, compatible, acc, s).value == Expected(img, compatible, [s], acc)
  {
    assert [s][0] == s && [s][1..] == [];
  }

  /** The scan fails exactly when some ".dtb-" section makes `match_fdt`
      exit, and then with the status of the first one. */
  lemma {:induction false} ScanSectionsFails(img: Image, compatible: Option<seq<byte>>, secs: seq<Section>, acc: Layout)
    ensures ScanSections(img, compatible, secs, acc).Success? <==>
      forall j :: 0 <= j < |secs| ==> !Fatal(img, compatible, secs[j])
    ensures ScanSections(img, compatible, secs, acc).Failure? ==>
      ScanSections(img, compatible, secs, acc).error == if compatible.None? then Efi.NotFound else Efi.InvalidParameter
    decreases |secs|
  {
    if secs != [] {
      var s := secs[0];
      assert forall j :: 1 <= j < |secs| ==> secs[j] == secs[1..][j - 1];
      StepSpec(img, compatible, acc, s);
      var step := ScanStep(img, compatible, acc, s);
      if step.Success? {
        ScanSectionsFails(img, compatible, secs[1..], step.value);
      }
    }
  }

  /** The scan keeps the last section of each kind and the last matching
      tree. */
  lemma {:induction false} ScanSectionsLayout(img: Image, compatible: Option<seq<byte>>, secs: seq<Section>, acc: Layout)
    ensures ScanSections(img, compatible, secs, acc).Success? ==>
      ScanSections(img, compatible, secs, acc).value == Expected(img, compatible, secs, acc)
    decreases |secs|
  {
    if secs != [] {
      var s := secs[0];
      StepSpec(img, compatible, acc, s);
      var step := ScanStep(img, compatible, acc, s);
      if step.Success? {
        ScanSectionsLayout(img, compatible, secs[1..], step.value);
        ExpectedCons(img, compatible, secs, acc);
      }
    }
  }

  // ---------------------------------------------------------------------
  // efi_main: what the stub hands to the kernel.

  /** `get_pe_header` applied to the kernel section and its
      AddressOfEntryPoint: the entry point's offset in the stub image. */
  function KernelEntry(img: Image, kbase: nat): (r: Option<nat>)
    ensures r.Some? ==>
      && kbase + 64 <= |img|
      && kbase + Le32At(img, kbase + 60) + 44 <= |img|
      && r.value == kbase + Le32At(img, kbase + Le32At(img, kbase + 60) + 40)
  {
    var pe :- PeHeader(img, kbase);
    var entry :- Le32(img, pe + PE_ADDRESS_OF_ENTRY_POINT);
    Some(kbase + entry)
  }

  /** A memory region: its address and size. */
  datatype Region = Region(address: nat, size: nat)

  /** The device tree the kernel boots with. */
  datatype Tree = EmbeddedTree(address: nat) | FirmwareTree | NoTree

  /** The loaded-image record of the kernel, the initrd handed to the
      initrd loader, the device tree, whether the "no embedded device tree
      matched" warning is shown, and the address called as the kernel. */
  datatype Plan = Plan(
    imageBase: nat,
    imageSize: nat,
    loadOptions: Option<Region>,
    initrd: Option<Region>,
    tree: Tree,
    warnNoMatch: bool,
    entry: nat)

  /** How the stub ends: running the kernel, exiting with a status, or
      reading outside its own image (which the C code does not check). */
  datatype Outcome = Run(plan: Plan) | Exit(status: Efi.Status) | Malformed

  function RegionOf(base: nat, sec: Option<Section>): Option<Region>
  {
    match sec
    case None => None
    case Some(s) => Some(Region(base + s.virtualAddress, s.virtualSize))
  }

  /** What `efi_main` does with the scanned layout: a missing ".kernel"
      section is fatal; otherwise the kernel's loaded-image record, initrd
      and device tree are set up and its entry point is called. */
  function Launch(img: Image, base: nat, compatible: Option<seq<byte>>, l: Layout): (r: Outcome)
    ensures l.kernel.None? <==> r == Exit(Efi.NotFound)
    ensures r.Run? ==> l.kernel.Some? && r.plan.imageBase == base + l.kernel.value.virtualAddress
  {
    if l.kernel.None? then Exit(Efi.NotFound)
    else
      var k := l.kernel.value;
      match KernelEntry(img, k.virtualAddress)
      case None => Malformed
      case Some(entry) =>
        var tree :=
          if l.altFdt.Some? then EmbeddedTree(base + l.altFdt.value)
          else if compatible.Some? then FirmwareTree
          else NoTree;
        Run(Plan(base + k.virtualAddress, k.virtualSize, RegionOf(base, l.cmdline),
                 RegionOf(base, l.initrd), tree, l.altFdt.None? && compatible.Some? && l.hasDtbs,
                 base + entry))
  }

  /** The section-table part of `efi_main`: scan, then launch. */
  function EnterKernel(img: Image, base: nat, compatible: Option<seq<byte>>, secs: seq<Section>): (r: Outcome)
  {
    match ScanSections(img, compatible, secs, NO_SECTIONS)
    case Failure(e) => Exit(e)
    case Success(l) => Launch(img, base, compatible, l)
  }

  /** The image-layout part of `efi_main` for a stub loaded at `base`, given
      the firmware's device tree if it has one. */
  function Boot(img: Image, base: nat, firmware: Option<seq<byte>>): (r: Outcome)
    ensures Fdt.FirmwareCompatible(firmware).Failure? ==> r == Exit(Efi.InvalidParameter)
    ensures SectionTable(img).None? && Fdt.FirmwareCompatible(firmware).Success? ==> r == Malformed
    ensures Fdt.FirmwareCompatible(firmware).Success? && SectionTable(img).Some? ==>
      r == EnterKernel(img, base, Fdt.FirmwareCompatible(firmware).value, SectionTable(img).value)
  {
    match Fdt.FirmwareCompatible(firmware)
    case Failure(e) => Exit(e)
    case Success(compatible) =>
      match SectionTable(img)
      case None => Malformed
      case Some(secs) => EnterKernel(img, base, compatible, secs)
  }

  /** A fatal ".dtb-" section ends the stub with `match_fdt`'s status. */
  lemma BootFatal(img: Image, base: nat, compatible: Option<seq<byte>>, secs: seq<Section>)
    requires exists j :: 0 <= j < |secs| && Fatal(img, compatible, secs[j])
    ensures EnterKernel(img, base, compatible, secs) ==
      Exit(if compatible.None? then Efi.NotFound else Efi.InvalidParameter)
  {
    ScanSectionsFails(img, compatible, secs, NO_SECTIONS);
    ScanSectionsLayout(img, compatible, secs, NO_SECTIONS);
  }

  /** Without a ".kernel" section the stub exits with NOT_FOUND. */
  lemma BootNoKernel(img: Image, base: nat, compatible: Option<seq<byte>>, secs: seq<Section>)
    requires forall j :: 0 <= j < |secs| ==> !Fatal(img, compatible, secs[j])
    requires LastWhere(secs, OfKind(KernelSection)).None?
    ensures EnterKernel(img, base, compatible, secs) == Exit(Efi.NotFound)
  {
    ScanSectionsFails(img, compatible, secs, NO_SECTIONS);
    ScanSectionsLayout(img, compatible, secs, NO_SECTIONS);
  }

  /** The plan handed to a kernel that runs. */
  predicate KernelPlan(img: Image, base: nat, secs: seq<Section>, p: Plan)
  {
    && LastWhere(secs, OfKind(KernelSection)).Some?
    && var k := secs[LastWhere(secs, OfKind(KernelSection)).value];
    && k.virtualAddress + 64 <= |img|
    && k.virtualAddress + Le32At(img, k.virtualAddress + 60) + 44 <= |img|
    && p.imageBase == base + k.virtualAddress
    && p.imageSize == k.virtualSize
    && p.entry == base + k.virtualAddress + Le32At(img, k.virtualAddress + Le32At(img, k.virtualAddress + 60) + 40)
  }

  /** The command line, initrd and device tree handed to a kernel. */
  predicate ExtrasPlan(img: Image, base: nat, compatible: Option<seq<byte>>, secs: seq<Section>, p: Plan)
  {
    && p.loadOptions == RegionOf(base, LastOr(secs, OfKind(CmdlineSection), None))
    && p.initrd == RegionOf(base, LastOr(secs, OfKind(InitrdSection), None))
    && p.tree == match LastDtb(img, compatible, secs, None)
                 case Some(a) => EmbeddedTree(base + a)
                 case None => if compatible.Some? then FirmwareTree else NoTree
  }

  /** A kernel that runs is the last ".kernel" section, entered at its base
      plus its own AddressOfEntryPoint, with the last ".cmdline" and
      ".initrd" sections and the last matching built-in tree, falling back
      to the firmware's. */
  lemma BootRuns(img: Image, base: nat, compatible: Option<seq<byte>>, secs: seq<Section>)
    requires EnterKernel(img, base, compatible, secs).Run?
    ensures KernelPlan(img, base, secs, EnterKernel(img, base, compatible, secs).plan)
    ensures ExtrasPlan(img, base, compatible, secs, EnterKernel(img, base, compatible, secs).plan)
  {
    ScanSectionsLayout(img, compatible, secs, NO_SECTIONS);
    var l := ScanSections(img, compatible, secs, NO_SECTIONS).value;
    LaunchKernel(img, base, compatible, secs, l);
    LaunchExtras(img, base, compatible, secs, l);
  }

  lemma LaunchKernel(img: Image, base: nat, compatible: Option<seq<byte>>, secs: seq<Section>, l: Layout)
    requires l.kernel == LastOr(secs, OfKind(KernelSection), None)
    requires Launch(img, base, compatible, l).Run?
    ensures KernelPlan(img, base, secs, Launch(img, base, compatible, l).plan)
  {
  }

  lemma LaunchExtras(img: Image, base: nat, compatible: Option<seq<byte>>, secs: seq<Section>, l: Layout)
    requires l == Expected(img, compatible, secs, NO_SECTIONS)
    requires Launch(img, base, compatible, l).Run?
    ensures ExtrasPlan(img, base, compatible, secs, Launch(img, base, compatible, l).plan)
  {
  }
}
