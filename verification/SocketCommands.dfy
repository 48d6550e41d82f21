/** The commands of Socket/lib.c, told apart by how a text begins. */
module SocketCommands {
  import opened SocketFrame

  /** `Error` stands for the end of the input; no text is read as it. */
  datatype Command = Error | Unknown | Print | Exit | Cd | Ls | FindAll | Shell | Quit

  const PRINT: seq<Byte> := [0x70, 0x72, 0x69, 0x6e, 0x74]
  const EXIT: seq<Byte> := [0x65, 0x78, 0x69, 0x74]
  const CD: seq<Byte> := [0x63, 0x64]
  const LS: seq<Byte> := [0x6c, 0x73]
  const FINDALL: seq<Byte> := [0x66, 0x69, 0x6e, 0x64, 0x61, 0x6c, 0x6c]
  const SHELL: seq<Byte> := [0x73, 0x68, 0x65, 0x6c, 0x6c]
  const QUIT: seq<Byte> := [0x71, 0x75, 0x69, 0x74]

  function GetCommand(b: seq<Byte>): Command {
    if PRINT <= b then Print
    else if EXIT <= b then Exit
    else if CD <= b then Cd
    else if LS <= b then Ls
    else if FINDALL <= b then FindAll
    else if SHELL <= b then Shell
    else if QUIT <= b then Quit
    else Unknown
  }

  lemma FirstByte(word: seq<Byte>, b: seq<Byte>)
    requires word != []
    ensures word <= b ==> b != [] && b[0] == word[0]
  {
  }

  /** No command hides another: the order of the tests does not matter. */
  lemma CommandsAreApart(b: seq<Byte>)
    ensures GetCommand(b) == Print <==> PRINT <= b
    ensures GetCommand(b) == Exit <==> EXIT <= b
    ensures GetCommand(b) == Cd <==> CD <= b
    ensures GetCommand(b) == Ls <==> LS <= b
    ensures GetCommand(b) == FindAll <==> FINDALL <= b
    ensures GetCommand(b) == Shell <==> SHELL <= b
    ensures GetCommand(b) == Quit <==> QUIT <= b
    ensures GetCommand(b) != Error
  {
    FirstByte(PRINT, b);
    FirstByte(EXIT, b);
    FirstByte(CD, b);
    FirstByte(LS, b);
    FirstByte(FINDALL, b);
    FirstByte(SHELL, b);
    FirstByte(QUIT, b);
  }

  /** The bytes of a word of ASCII characters. */
  function Bytes(word: string): seq<Byte>
    requires forall i :: 0 <= i < |word| ==> word[i] as int < 128
  {
    seq(|word|, i requires 0 <= i < |word| => word[i] as int as Byte)
  }

  lemma Spells(b: seq<Byte>, word: string)
    requires |b| == |word| && forall i :: 0 <= i < |word| ==> word[i] as int < 128 && b[i] as int == word[i] as int
    ensures b == Bytes(word)
  {
  }

  /** The commands are these words. */
  lemma CommandWords()
    ensures PRINT == Bytes("print") && EXIT == Bytes("exit") && CD == Bytes("cd") && LS == Bytes("ls")
    ensures FINDALL == Bytes("findall") && SHELL == Bytes("shell") && QUIT == Bytes("quit")
  {
    hide Bytes;
    Spells(PRINT, "print");
    Spells(EXIT, "exit");
    Spells(CD, "cd");
    Spells(LS, "ls");
    Spells(FINDALL, "findall");
    Spells(SHELL, "shell");
    Spells(QUIT, "quit");
  }

  /** So a text is read as a command exactly when it begins with the command's word. */
  lemma CommandsByWord(b: seq<Byte>)
    ensures GetCommand(b) == Print <==> Bytes("print") <= b
    ensures GetCommand(b) == Exit <==> Bytes("exit") <= b
    ensures GetCommand(b) == Cd <==> Bytes("cd") <= b
    ensures GetCommand(b) == Ls <==> Bytes("ls") <= b
    ensures GetCommand(b) == FindAll <==> Bytes("findall") <= b
    ensures GetCommand(b) == Shell <==> Bytes("shell") <= b
    ensures GetCommand(b) == Quit <==> Bytes("quit") <= b
    ensures GetCommand(b) != Error
  {
    CommandWords();
    hide Bytes, GetCommand;
    CommandsAreApart(b);
  }
}
