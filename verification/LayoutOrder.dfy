/** The order the classes give to the sections of an output file, told by what the sections are for. */
module LayoutOrder {
  import opened Layout

  /** What a section is for, in the order in which the roles come in the file. */
  datatype Role =
    | InterpreterName | Notes | DynamicSymbols | DynamicStrings | HashTables | Versions | Relocs | PltRelocs
    | Constants | Code
    | ThreadData | ThreadZeroes | PreInit | Init | Fini | RelocatedConstants | DynamicInfo | Got
    | Data | Zeroes
    | Symbols | SymbolNames | DebugInfo | SectionNames

  function Turn(r: Role): (k: nat) {
    match r
    case InterpreterName => 0
    case Notes => 1
    case DynamicSymbols => 2
    case DynamicStrings => 3
    case HashTables => 4
    case Versions => 5
    case Relocs => 6
    case PltRelocs => 7
    case Constants => 8
    case Code => 9
    case ThreadData => 10
    case ThreadZeroes => 11
    case PreInit => 12
    case Init => 13
    case Fini => 14
    case RelocatedConstants => 15
    case DynamicInfo => 16
    case Got => 17
    case Data => 18
    case Zeroes => 19
    case Symbols => 20
    case SymbolNames => 21
    case DebugInfo => 22
    case SectionNames => 23
  }

  /** Neither code nor thread-local, nor one of the sections known by their index. */
  predicate PlainData(s: Sec, i: nat, t: Target) {
    !s.exec && !s.tls && t.got != i && t.interp != i && t.pltRelocs != i
  }

  /** Section i of n has the role: what kind it is and which flags it has. */
  predicate Plays(s: Sec, i: nat, n: nat, t: Target, r: Role) {
    && s.named && (s.alloc <==> Turn(r) < 20)
    && match r
       case InterpreterName => s.kind == OtherKind && !s.write && !s.exec && !s.tls && !s.allocRelocs && t.interp == i && t.got != i
       case Notes => s.kind == Note && !s.write && !s.allocRelocs && PlainData(s, i, t)
       case DynamicSymbols => s.kind == Dynsym && !s.write
       case DynamicStrings => s.kind == Strtab && !s.stabStrings && !s.write && i + 1 < n
       case HashTables => (s.kind == Hash || s.kind == GnuHash) && !s.write
       case Versions => s.kind == VersionInfo && !s.write
       case Relocs => s.kind == Relx && !s.write && t.pltRelocs != i
       case PltRelocs => s.kind == Relx && !s.write && t.pltRelocs == i
       case Constants => s.kind == OtherKind && !s.write && !s.allocRelocs && PlainData(s, i, t)
       case Code => s.kind == OtherKind && s.exec && !s.write
       case ThreadData => s.kind == OtherKind && s.write && s.tls && !s.exec
       case ThreadZeroes => s.kind == Nobits && s.write && s.tls && !s.exec
       case PreInit => s.kind == PreinitArray && !s.exec && !s.tls
       case Init => s.kind == InitArray && !s.exec && !s.tls
       case Fini => s.kind == FiniArray && !s.exec && !s.tls
       case RelocatedConstants => s.kind == OtherKind && !s.write && s.allocRelocs && PlainData(s, i, t)
       case DynamicInfo => s.kind == Dynamic && !s.exec && !s.tls
       case Got => s.kind == OtherKind && !s.exec && !s.tls && t.got == i
       case Data => s.kind == OtherKind && s.write && PlainData(s, i, t)
       case Zeroes => s.kind == Nobits && s.write && PlainData(s, i, t)
       case Symbols => s.kind == Symtab && !s.exec
       case SymbolNames => s.kind == Strtab && !s.stabStrings && i + 1 < n
       case DebugInfo => s.kind == OtherKind && PlainData(s, i, t)
       case SectionNames => s.kind == Strtab && !s.stabStrings && i + 1 == n
  }

  /** One of the sections every output has: they come last among those of their role. */
  predicate Standard(s: Sec, t: Target) {
    s.num <= t.bssNum
  }

  /** Sections come in the order of their roles, and within a role the standard ones come last. */
  lemma RolesInOrder(a: Sec, i: nat, ra: Role, b: Sec, j: nat, rb: Role, n: nat, t: Target)
    requires t.elf && Plays(a, i, n, t, ra) && Plays(b, j, n, t, rb)
    ensures Turn(ra) < Turn(rb) ==> Class(a, i, n, t) <= Class(b, j, n, t)
    ensures Turn(ra) < Turn(rb) && (Standard(a, t) ==> Standard(b, t)) ==> Class(a, i, n, t) < Class(b, j, n, t)
    ensures ra == rb && !Standard(a, t) && Standard(b, t) ==> Class(a, i, n, t) < Class(b, j, n, t)
    ensures ra == rb && (Standard(a, t) <==> Standard(b, t)) ==> Class(a, i, n, t) == Class(b, j, n, t)
  {
    hide Plays, Class;
    RoleClass(a, i, n, t, ra);
    RoleClass(b, j, n, t, rb);
  }

  /** The class a role comes to, the standard sections being one higher. */
  function BaseClass(r: Role): (k: nat) {
    match r
    case InterpreterName => 0x100
    case Notes => 0x108
    case DynamicSymbols => 0x110
    case DynamicStrings => 0x111
    case HashTables => 0x112
    case Versions => 0x113
    case Relocs => 0x120
    case PltRelocs => 0x121
    case Constants => 0x150
    case Code => 0x160
    case ThreadData => 0x240
    case ThreadZeroes => 0x241
    case PreInit => 0x242
    case Init => 0x243
    case Fini => 0x244
    case RelocatedConstants => 0x245
    case DynamicInfo => 0x246
    case Got => 0x247
    case Data => 0x250
    case Zeroes => 0x270
    case Symbols => 0x710
    case SymbolNames => 0x711
    case DebugInfo => 0x750
    case SectionNames => 0x7ff
  }

  lemma RoleClass(s: Sec, i: nat, n: nat, t: Target, r: Role)
    requires t.elf && Plays(s, i, n, t, r)
    ensures Class(s, i, n, t) == BaseClass(r) + (if Standard(s, t) then 1 else 0)
  {
  }

  /** What becomes of sections by role: all but the last four kinds are loaded; those from thread-local data to the
      global offset table are made read-only after relocation, and writable until then. */
  lemma RoleIsLoaded(s: Sec, i: nat, n: nat, t: Target, r: Role, last: Perm)
    requires t.elf && Plays(s, i, n, t, r)
    ensures var f, relro := FlagFor(Adjusted(s, i, n, t), Class(s, i, n, t), last), 10 <= Turn(r) <= 17;
            && (f.Loaded? <==> Turn(r) < 20)
            && (f.Loaded? ==> f.relro == relro && (f.perm.Perm? ==> f.perm.write == (s.write || relro) && f.perm.exec == s.exec))
    ensures Adjusted(s, i, n, t).size == s.size
  {
    RoleClass(s, i, n, t, r);
  }

  /** A section goes to the file exactly if it has a name and, in other formats than ELF, is allocated; what such a
      format cannot hold is emptied. Nothing else but the write flag is changed, and that only upwards. */
  lemma InFileIff(s: Sec, i: nat, n: nat, t: Target)
    ensures Class(s, i, n, t) < 0x900 <==> s.named && (s.alloc || t.elf)
    ensures var r := Adjusted(s, i, n, t);
            && r.size == (if t.elf || (s.named && s.alloc) then s.size else 0)
            && r == s.(size := r.size, write := r.write) && (s.write ==> r.write)
  {
  }

  /** Notes are seen as such unless something else about them decides their place first. */
  lemma SeenAsNoteIff(s: Sec, i: nat, n: nat, t: Target)
    ensures SeenAsNote(s, i, n, t) <==>
              && s.kind == Note && !s.exec && !s.tls && t.got != i
              && !(s.allocRelocs && s.named && s.alloc && !s.write)
  {
  }
}
