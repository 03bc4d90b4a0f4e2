/**
  The fixed-size path buffer of the Linux directory code (`PathBuffer`): a
  character array that is extended with `snprintf` and cut back by writing a
  terminator.
 */
module PathBuffer {
  import opened PathNames

  const PATH_MAX: nat := 4096

  /** The C string that starts at the beginning of `s`. */
  function UpToNul(s: seq<char>): string {
    if s == [] || s[0] == NUL then "" else [s[0]] + UpToNul(s[1..])
  }

  lemma {:induction false} UpToNulAt(s: seq<char>, n: nat)
    requires n < |s| && s[n] == NUL && CString(s[..n])
    ensures UpToNul(s) == s[..n]
    decreases |s|
  {
    if n > 0 {
      assert s[0] == s[..n][0];
      assert s[1..][..n - 1] == s[..n][1..];
      UpToNulAt(s[1..], n - 1);
      assert s[..n] == [s[0]] + s[1..][..n - 1];
    }
  }

  class Buffer {
    const data: array<char>
    var length: nat

    /** The first `length` characters are a string, terminated or not. */
    ghost predicate Intact()
      reads this, data
    {
      data.Length == PATH_MAX + 1 && length < PATH_MAX && CString(data[..length])
    }

    ghost predicate Valid()
      reads this, data
    {
      Intact() && data[length] == NUL
    }

    ghost function Text(): string
      reads this, data
    {
      if length <= data.Length then data[..length] else data[..]
    }

    /** Where the string in the buffer ends: a full buffer has lost its last character. */
    function End(): nat
      reads this
    {
      if length < PATH_MAX then length else PATH_MAX - 1
    }

    /** A terminated buffer that may be full. */
    ghost predicate Whole()
      reads this, data
    {
      data.Length == PATH_MAX + 1 && length <= PATH_MAX && CString(data[..End()]) && data[End()] == NUL
    }

    /** The string in the buffer. */
    ghost function CText(): string
      requires data.Length == PATH_MAX + 1
      reads this, data
    {
      data[..End()]
    }

    lemma CTextIsTheString()
      requires Whole()
      ensures UpToNul(data[..]) == CText()
    {
      assert data[..][..End()] == data[..End()];
      UpToNulAt(data[..], End());
    }

    /** The string that the system is given: the buffer read up to its terminator. */
    function AsString(): string
      requires Whole()
      reads this, data
      ensures AsString() == CText()
    {
      CTextIsTheString();
      UpToNul(data[..])
    }

    constructor ()
      ensures Valid() && Text() == "" && fresh(data)
    {
      data := new char[PATH_MAX + 1](_ => NUL);
      length := 0;
    }

    /** `snprintf` of a string: writes what fits before `size`, and a terminator. */
    method Print(at: nat, size: nat, name: string) returns (written: nat)
      requires at + size <= data.Length
      modifies data
      ensures written == |name|
      ensures data[..at] == old(data[..at])
      ensures size > 0 ==>
        var n := if |name| < size then |name| else size - 1;
        data[at..at + n] == name[..n] && data[at + n] == NUL
    {
      written := |name|;
      if size > 0 {
        var n := if |name| < size then |name| else size - 1;
        var i := 0;
        while i < n
          invariant 0 <= i <= n
          invariant data[..at] == old(data[..at])
          invariant data[at..at + i] == name[..i]
        {
          data[at + i] := name[i];
          assert data[at..at + i + 1] == data[at..at + i] + [name[i]];
          i := i + 1;
        }
        data[at + n] := NUL;
        assert data[at..at + n] == name[..n];
      }
    }

    /**
      Appends a name.  Succeeds exactly when the whole text is at most PATH_MAX
      long; but the text is only right below PATH_MAX.  At exactly PATH_MAX the
      last character is lost, and the string in the buffer ends one too early.
     */
    method Add(name: string) returns (ok: bool)
      requires Whole() && CString(name)
      modifies this, data
      ensures ok <==> old(length) + |name| <= PATH_MAX
      ensures ok ==> Whole() && length == old(length) + |name| && CText() == (old(CText()) + name)[..End()]
      ensures old(Valid()) && ok && |old(Text())| + |name| < PATH_MAX ==> Valid() && Text() == old(Text()) + name
      ensures old(Valid()) && !ok ==> Intact() && Text() == old(Text())
    {
      ghost var before := CText();
      ghost var end := if length + |name| < PATH_MAX then length + |name| else PATH_MAX - 1;
      var written := Print(length, PATH_MAX - length, name);
      assert data[..End()] == before;
      assert length < PATH_MAX ==> data[..end] == data[..length] + data[length..end];
      ghost var head := data[..end];
      data[PATH_MAX] := NUL;
      assert data[..end] == head;
      if written <= PATH_MAX - length && written == (if |name| < PATH_MAX + 1 then |name| else PATH_MAX + 1) {
        ghost var whole := before + name;
        assert head == whole[..end];
        length := length + written;
        assert End() == end;
        assert forall i | 0 <= i < |whole| :: whole[i] != NUL;
        return true;
      } else {
        return false;
      }
    }

    /** Cuts the text back. */
    method Reset(newLength: nat)
      requires newLength <= length && (Intact() || Whole())
      modifies this, data
      ensures length == newLength && (old(Whole()) ==> Whole() && CText() == old(CText())[..End()])
      ensures old(Intact()) ==> Valid() && Text() == old(Text())[..newLength]
    {
      length := newLength;
      data[length] := NUL;
      assert old(Whole()) ==> data[..End()] == old(CText())[..End()];
      assert old(Intact()) ==> data[..length] == old(data[..length])[..newLength];
    }
  }
}
