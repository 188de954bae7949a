/** `gpg`: a wrapper that encrypts a file to `<name>.gpg` or decrypts a
    `<name>.gpg` back to `<name>`, chosen by the file name's last four
    characters. The file system is the set of existing path names; what
    `gpg` itself does with the files is not modelled. */
module Gpg {
  import Strings

  const GPG_EXT := ".gpg"

  /** `encrypt`'s output name: the input with ".gpg" appended. */
  function EncryptOutput(input: string): (output: string)
    ensures |output| == |input| + 4
    ensures Strings.StartsWith(output, input) && Strings.EndsWith(output, GPG_EXT)
  {
    input + GPG_EXT
  }

  /** `decrypt`'s output name: `input[:-4]`, all but the last four
      characters, or "" for a shorter name. */
  function DecryptOutput(input: string): (output: string)
    ensures |input| >= 4 ==> |output| == |input| - 4
    ensures |input| < 4 ==> output == ""
    ensures Strings.StartsWith(input, output)
  {
    Strings.DropLastN(input, 4)
  }

  /** `main`'s test: the last four characters are ".gpg". */
  predicate IsEncrypted(input: string) {
    Strings.LastN(input, 4) == GPG_EXT
  }

  /** The test holds exactly for names that end with ".gpg". */
  lemma {:induction false} IsEncryptedIff(input: string)
    ensures IsEncrypted(input) <==> Strings.EndsWith(input, GPG_EXT)
  {
    if |input| < 4 {
      assert |Strings.LastN(input, 4)| < 4;
    }
  }

  /** Decrypting the name encryption produced gives the original name back,
      and that name is one `main` decrypts. */
  lemma {:induction false} EncryptDecryptRoundTrip(input: string)
    ensures IsEncrypted(EncryptOutput(input))
    ensures DecryptOutput(EncryptOutput(input)) == input
  {
    var output := input + GPG_EXT;
    assert output[|output| - 4..] == GPG_EXT;
    assert output[..|output| - 4] == input;
  }

  /** The other direction: a name `main` decrypts is the encryption output
      of the name it decrypts to. */
  lemma {:induction false} DecryptEncryptRoundTrip(input: string)
    requires IsEncrypted(input)
    ensures EncryptOutput(DecryptOutput(input)) == input
  {
    assert |input| >= 4;
    assert input == input[..|input| - 4] + input[|input| - 4..];
  }

  /** What one run of `gpg` does. */
  datatype Action =
    | Usage                          // no argument: print usage, exit 0
    | Help                           // "-h": print help, exit 0
    | CannotOpen(input: string)      // the input cannot be opened: exit 1
    | OutputExists(output: string)   // the output exists already: exit 1
    | Encrypt(input: string, output: string)
    | Decrypt(input: string, output: string)

  /** `main`: the first argument names the file; its last four characters
      choose decryption or encryption, and either refuses to run when its
      output exists. `names` is the set of files that exist. */
  function MainAction(args: seq<string>, names: set<string>): (a: Action)
    ensures args == [] ==> a == Usage
    ensures a.Encrypt? ==> a.output == EncryptOutput(a.input) && !IsEncrypted(a.input)
    ensures a.Decrypt? ==> a.output == DecryptOutput(a.input) && IsEncrypted(a.input)
    ensures a.Encrypt? || a.Decrypt? ==> a.input == args[0] && a.input in names && a.output !in names
  {
    if args == [] then Usage
    else if args[0] == "-h" then Help
    else
      var input := args[0];
      if input !in names then CannotOpen(input)
      else if IsEncrypted(input) then
        var output := DecryptOutput(input);
        if output in names then OutputExists(output) else Decrypt(input, output)
      else
        var output := EncryptOutput(input);
        if output in names then OutputExists(output) else Encrypt(input, output)
  }

  /** Neither direction runs over an existing file: when the output name
      exists, `main` stops. */
  lemma {:induction false} NeverOverwrites(args: seq<string>, names: set<string>)
    requires args != [] && args[0] != "-h" && args[0] in names
    ensures var output := if IsEncrypted(args[0]) then DecryptOutput(args[0]) else EncryptOutput(args[0]);
      output in names <==> MainAction(args, names) == OutputExists(output)
  {
  }

  /** Encrypting a file and then decrypting the result (after the original
      is removed) restores the original name. */
  lemma {:induction false} EncryptThenDecrypt(input: string, names: set<string>)
    requires input != "-h" && input in names && !IsEncrypted(input) && EncryptOutput(input) !in names
    ensures MainAction([input], names) == Encrypt(input, EncryptOutput(input))
    ensures var after := names - {input} + {EncryptOutput(input)};
      MainAction([EncryptOutput(input)], after) == Decrypt(EncryptOutput(input), input)
  {
    EncryptDecryptRoundTrip(input);
    var output := EncryptOutput(input);
    assert output != "-h" by {
      assert |output| >= 4;
    }
    assert output != input;
  }
}
