/**
 * The SFTP file-type field (`SSHFilexferTypeEnum` in index.py): a closed set of
 * five kinds, each with the integer code of section 5.2 of
 * draft-ietf-secsh-filexfer-04.
 */
module FileTypes {

  datatype Option<T> = None | Some(value: T)

  datatype FileType = Regular | Directory | Symlink | Special | Unknown

  /** The wire code of a file type (the enum member's integer value). */
  function Code(t: FileType): (c: int)
    ensures 1 <= c <= 5
    ensures c == 2 <==> t == Directory
  {
    match t
    case Regular => 1
    case Directory => 2
    case Symlink => 3
    case Special => 4
    case Unknown => 5
  }

  /**
   * Looking a code up in the enum, `SSHFilexferTypeEnum(c)`: a code outside
   * 1..5 has no member (Python raises ValueError), modelled as None.
   */
  function FromCode(c: int): (r: Option<FileType>)
    ensures r.Some? <==> 1 <= c <= 5
    ensures r.Some? ==> Code(r.value) == c
  {
    if c == 1 then Some(Regular)
    else if c == 2 then Some(Directory)
    else if c == 3 then Some(Symlink)
    else if c == 4 then Some(Special)
    else if c == 5 then Some(Unknown)
    else None
  }

  /** Distinct file types have distinct codes. */
  lemma CodeInjective(s: FileType, t: FileType)
    ensures Code(s) == Code(t) ==> s == t
  {
  }

  /** Every file type is recovered from its code. */
  lemma FromCodeOfCode(t: FileType)
    ensures FromCode(Code(t)) == Some(t)
  {
  }
}
