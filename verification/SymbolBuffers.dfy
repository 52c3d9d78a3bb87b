/** The buffers under a symbol table: symbol records and a string section, each written at a cursor
    that may be rewound, so that older contents can lie beyond it. */
module SymbolBuffers {
  import opened Bytes
  import opened SymbolIndex
  import opened SymbolMerge

  /** A symbol record: `name` is an offset into the string section. */
  datatype Sym = Sym(name: nat, info: Byte, other: Byte, shndx: nat, value: nat, size: nat)

  function EntryOf(s: Sym, str: seq<Byte>): (e: Entry) {
    Entry(StrAt(str, s.name), s.info, s.other, s.shndx, s.value, s.size)
  }

  /** The first n records, with their names read back. */
  function ViewOf(syms: seq<Sym>, str: seq<Byte>, n: nat): (t: seq<Entry>)
    requires n <= |syms|
    ensures |t| == n
  {
    seq(n, i requires 0 <= i < n => EntryOf(syms[i], str))
  }

  function Overwrite<T>(buf: seq<T>, at: nat, xs: seq<T>): (r: seq<T>)
    requires at <= |buf|
    ensures |r| >= |buf| && |r| >= at + |xs|
    ensures forall k :: 0 <= k < at ==> r[k] == buf[k]
    ensures forall k :: at <= k < at + |xs| ==> r[k] == xs[k - at]
    ensures forall k :: at + |xs| <= k < |buf| ==> r[k] == buf[k]
  {
    if at + |xs| <= |buf| then buf[..at] + xs + buf[at + |xs|..] else buf[..at] + xs
  }

  /** The string section in use: it starts with the empty string and ends with a terminator. */
  ghost predicate StringsOk(str: seq<Byte>, len: nat) {
    0 < len <= |str| && str[0] == 0 && str[len - 1] == 0
  }

  ghost predicate NamesWithin(syms: seq<Sym>, n: nat, len: nat) {
    n <= |syms| && forall i :: 0 <= i < n ==> syms[i].name < len
  }

  /** b is a, except possibly between the cursors: nothing before n and nothing from n' on changed. */
  ghost predicate Kept<T>(a: seq<T>, n: nat, b: seq<T>, n': nat) {
    && n <= n' <= |b| && n <= |a| <= |b|
    && (forall k :: 0 <= k < n ==> b[k] == a[k])
    && (forall k :: n' <= k < |a| ==> b[k] == a[k])
  }

  /** Nothing from n' on changed. */
  ghost predicate TailKept<T>(a: seq<T>, b: seq<T>, n': nat) {
    n' <= |b| && |a| <= |b| && forall k :: n' <= k < |a| ==> b[k] == a[k]
  }

  /** The view depends only on the records and on the bytes before the string cursor. */
  lemma ViewFrame(syms: seq<Sym>, syms': seq<Sym>, str: seq<Byte>, str': seq<Byte>, n: nat, len: nat)
    requires n <= |syms| && n <= |syms'| && StringsOk(str, len) && NamesWithin(syms, n, len)
    requires forall i :: 0 <= i < n ==> syms'[i] == syms[i]
    requires len <= |str'| && forall k :: 0 <= k < len ==> str'[k] == str[k]
    ensures ViewOf(syms', str', n) == ViewOf(syms, str, n)
  {
    forall i | 0 <= i < n
      ensures ViewOf(syms', str', n)[i] == ViewOf(syms, str, n)[i]
    {
      StrAtFrame(str, str', syms[i].name, len - 1);
    }
  }

  /** Writing a record, and its name if it has one, at the cursors appends one entry to the view. */
  lemma ViewAppend(syms: seq<Sym>, n: nat, str: seq<Byte>, len: nat, a: Entry, s: Sym, str': seq<Byte>, len': nat)
    requires StringsOk(str, len) && NamesWithin(syms, n, len) && NoNul(a.name)
    requires s == Sym(if a.name == [] then 0 else len, a.info, a.other, a.shndx, a.value, a.size)
    requires if a.name == [] then str' == str && len' == len
             else str' == Overwrite(str, len, a.name + [0]) && len' == len + |a.name| + 1
    ensures StringsOk(str', len') && NamesWithin(Overwrite(syms, n, [s]), n + 1, len')
    ensures ViewOf(Overwrite(syms, n, [s]), str', n + 1) == ViewOf(syms, str, n) + [a]
    ensures Kept(str, len, str', len') && Kept(syms, n, Overwrite(syms, n, [s]), n + 1)
    ensures EntryOf(s, str') == a
  {
    var syms' := Overwrite(syms, n, [s]);
    ViewFrame(syms, syms', str, str', n, len);
    if a.name != [] {
      assert str'[len + |a.name|] == (a.name + [0])[|a.name|];
      StrAtReads(str', len, a.name);
    }
    assert forall i :: 0 <= i < n ==> ViewOf(syms', str', n + 1)[i] == ViewOf(syms', str', n)[i];
  }

  /** Where the name of a record ends, terminator included; a record at offset 0 has no name. */
  function NameEnd(s: Sym, str: seq<Byte>): (e: nat) {
    s.name + |StrAt(str, s.name)| + 1
  }

  /** The records of the file being compiled keep their names in the file's part of the string
      section, in the order of the records. */
  ghost predicate NamesInOrder(syms: seq<Sym>, str: seq<Byte>, first: nat, n: nat, firstStr: nat, len: nat) {
    && first <= n <= |syms|
    && (forall i :: first <= i < n && syms[i].name != 0 ==> firstStr <= syms[i].name && NameEnd(syms[i], str) <= len)
    && (forall i, j :: first <= i < j < n && syms[i].name != 0 && syms[j].name != 0 ==>
          NameEnd(syms[i], str) <= syms[j].name)
  }

  lemma NamesInOrderAppend(syms: seq<Sym>, n: nat, str: seq<Byte>, len: nat, first: nat, firstStr: nat,
                           a: Entry, s: Sym, str': seq<Byte>, len': nat)
    requires StringsOk(str, len) && NamesWithin(syms, n, len) && NoNul(a.name)
    requires NamesInOrder(syms, str, first, n, firstStr, len) && firstStr <= len
    requires s == Sym(if a.name == [] then 0 else len, a.info, a.other, a.shndx, a.value, a.size)
    requires if a.name == [] then str' == str && len' == len
             else str' == Overwrite(str, len, a.name + [0]) && len' == len + |a.name| + 1
    ensures NamesInOrder(Overwrite(syms, n, [s]), str', first, n + 1, firstStr, len')
  {
    var syms' := Overwrite(syms, n, [s]);
    ViewAppend(syms, n, str, len, a, s, str', len');
    forall i | 0 <= i < n
      ensures syms'[i] == syms[i] && NameEnd(syms'[i], str') == NameEnd(syms[i], str)
    {
      StrAtFrame(str, str', syms[i].name, len - 1);
    }
    assert syms'[n] == s;
    assert s.name != 0 ==> NameEnd(s, str') == len';
  }

  /** Editing a record in place, its name offset aside, keeps the names in order. */
  lemma NamesInOrderEdit(syms: seq<Sym>, str: seq<Byte>, first: nat, n: nat, firstStr: nat, len: nat, i: nat, s: Sym)
    requires NamesInOrder(syms, str, first, n, firstStr, len)
    requires first <= i < n && s.name == syms[i].name
    ensures NamesInOrder(syms[i := s], str, first, n, firstStr, len)
  {
    var syms' := syms[i := s];
    forall k | first <= k < n
      ensures syms'[k].name == syms[k].name && NameEnd(syms'[k], str) == NameEnd(syms[k], str)
    {
    }
  }

  /** A table whose current file began at the cursors firstSym and firstStr. */
  ghost predicate FileOk(syms: seq<Sym>, n: nat, str: seq<Byte>, len: nat, firstSym: nat, firstStr: nat) {
    && 0 < firstSym <= n <= |syms| && firstStr <= len
    && StringsOk(str, firstStr) && NamesWithin(syms, firstSym, firstStr)
    && NamesInOrder(syms, str, firstSym, n, firstStr, len)
  }

  lemma FileOkAppend(syms: seq<Sym>, n: nat, str: seq<Byte>, len: nat, firstSym: nat, firstStr: nat,
                     a: Entry, s: Sym, str': seq<Byte>, len': nat)
    requires FileOk(syms, n, str, len, firstSym, firstStr)
    requires StringsOk(str, len) && NamesWithin(syms, n, len) && NoNul(a.name)
    requires s == Sym(if a.name == [] then 0 else len, a.info, a.other, a.shndx, a.value, a.size)
    requires if a.name == [] then str' == str && len' == len
             else str' == Overwrite(str, len, a.name + [0]) && len' == len + |a.name| + 1
    ensures FileOk(Overwrite(syms, n, [s]), n + 1, str', len', firstSym, firstStr)
    ensures ViewOf(Overwrite(syms, n, [s]), str', firstSym) == ViewOf(syms, str, firstSym)
  {
    NamesInOrderAppend(syms, n, str, len, firstSym, firstStr, a, s, str', len');
    ViewFrame(syms, Overwrite(syms, n, [s]), str, str', firstSym, firstStr);
  }
}
