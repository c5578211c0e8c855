/**
 * The package-name tests of the planner: the two regular expressions, written out as character
 * predicates, and the kernel-image name filter built from them.
 */
module KernelNames {
  import opened Text

  const ImagePrefix: string := "linux-image-"
  const HeadersPrefix: string := "linux-headers-"

  predicate IsLowerLetter(c: char) {
    'a' <= c <= 'z'
  }

  /** The regex class `\d`, restricted to ASCII digits. */
  predicate IsDecimalDigit(c: char) {
    '0' <= c <= '9'
  }

  /** The number of lower-case letters at the start of `s`: what greedy `[a-z]+` consumes. */
  function LeadingLetters(s: string): (k: nat)
    ensures k <= |s|
    ensures forall i :: 0 <= i < k ==> IsLowerLetter(s[i])
    ensures k < |s| ==> !IsLowerLetter(s[k])
    decreases |s|
  {
    if s != [] && IsLowerLetter(s[0]) then 1 + LeadingLetters(s[1..]) else 0
  }

  /** What the regex anchor `$` accepts: the end of the string, or a final newline before it. */
  predicate AtEnd(t: string) {
    t == "" || t == "\n"
  }

  /**
   * `re.match('linux-image-[a-z]+(-pae)?$', name)`: a meta-package name such as `linux-image-generic`
   * or `linux-image-generic-pae`, whose flavour is letters only.
   */
  predicate IsArchMetaName(name: string) {
    IsPrefix(ImagePrefix, name) &&
    var rest := name[|ImagePrefix|..];
    var k := LeadingLetters(rest);
    k > 0 && (AtEnd(rest[k..]) || (IsPrefix("-pae", rest[k..]) && AtEnd(rest[k + 4..])))
  }

  /** The strings that may follow the letters in an architecture meta-package name. */
  ghost predicate IsMetaSuffix(t: string) {
    t == "" || t == "-pae" || t == "\n" || t == "-pae\n"
  }

  /** `name` is `linux-image-`, a non-empty run of lower-case letters, and a meta suffix. */
  ghost predicate IsArchMetaSplit(name: string, flavour: string, suffix: string) {
    && name == ImagePrefix + flavour + suffix
    && |flavour| > 0
    && (forall i :: 0 <= i < |flavour| ==> IsLowerLetter(flavour[i]))
    && IsMetaSuffix(suffix)
  }

  /** The hand-written matcher accepts exactly the language of the regular expression. */
  lemma ArchMetaNameIff(name: string)
    ensures IsArchMetaName(name) <==> exists flavour, suffix :: IsArchMetaSplit(name, flavour, suffix)
  {
    if IsArchMetaName(name) {
      ArchMetaNameSplits(name);
    }
    if exists flavour, suffix :: IsArchMetaSplit(name, flavour, suffix) {
      var flavour, suffix :| IsArchMetaSplit(name, flavour, suffix);
      ArchMetaSplitMatches(name, flavour, suffix);
    }
  }

  lemma ArchMetaNameSplits(name: string)
    requires IsArchMetaName(name)
    ensures IsArchMetaSplit(name, name[|ImagePrefix|..][..LeadingLetters(name[|ImagePrefix|..])],
                            name[|ImagePrefix|..][LeadingLetters(name[|ImagePrefix|..])..])
  {
    var rest := name[|ImagePrefix|..];
    var k := LeadingLetters(rest);
    var flavour, suffix := rest[..k], rest[k..];
    assert name == ImagePrefix + rest;
    assert rest == flavour + suffix;
    if !AtEnd(suffix) {
      assert suffix == "-pae" + suffix[4..];
    }
  }

  lemma ArchMetaSplitMatches(name: string, flavour: string, suffix: string)
    requires IsArchMetaSplit(name, flavour, suffix)
    ensures IsArchMetaName(name)
  {
    var rest := flavour + suffix;
    assert name[..|ImagePrefix|] == ImagePrefix;
    assert name[|ImagePrefix|..] == rest;
    var k := LeadingLetters(rest);
    if suffix != [] {
      assert !IsLowerLetter(suffix[0]);
      assert rest[|flavour|] == suffix[0];
    }
    assert forall i :: 0 <= i < |flavour| ==> rest[i] == flavour[i];
    assert k == |flavour|;
    assert rest[k..] == suffix;
    if suffix == "-pae" || suffix == "-pae\n" {
      assert suffix[..4] == "-pae";
      assert suffix[4..] == "" || suffix[4..] == "\n";
    }
  }

  /**
   * The pattern's flavour is letters only, so a meta-package whose flavour holds a digit, such as
   * `linux-image-amd64`, is not matched and is scanned like a versioned kernel.
   */
  lemma FlavourWithDigitIsNotMeta(flavour: string, d: char, tail: string)
    requires forall i :: 0 <= i < |flavour| ==> IsLowerLetter(flavour[i])
    requires IsDecimalDigit(d)
    ensures !IsArchMetaName(ImagePrefix + flavour + [d] + tail)
  {
    var name := ImagePrefix + flavour + [d] + tail;
    var rest := flavour + [d] + tail;
    assert name[..|ImagePrefix|] == ImagePrefix;
    assert name[|ImagePrefix|..] == rest;
    assert forall i :: 0 <= i < |flavour| ==> rest[i] == flavour[i];
    assert rest[|flavour|] == d;
    var k := LeadingLetters(rest);
    assert k == |flavour|;
    assert rest[k..][0] == d;
  }

  /** `re.match('linux-headers-\d', name)`: a header package whose name continues with a digit. */
  predicate IsVersionedHeaderName(name: string) {
    IsPrefix(HeadersPrefix, name) && |name| > |HeadersPrefix| && IsDecimalDigit(name[|HeadersPrefix|])
  }

  /** The header test accepts exactly `linux-headers-`, a digit, and anything after it. */
  lemma VersionedHeaderNameIff(name: string)
    ensures IsVersionedHeaderName(name) <==> exists d, tail :: IsDecimalDigit(d) && name == HeadersPrefix + [d] + tail
  {
    if IsVersionedHeaderName(name) {
      var d, tail := name[|HeadersPrefix|], name[|HeadersPrefix| + 1..];
      assert name == HeadersPrefix + [d] + tail;
    }
    if exists d, tail :: IsDecimalDigit(d) && name == HeadersPrefix + [d] + tail {
      var d, tail :| IsDecimalDigit(d) && name == HeadersPrefix + [d] + tail;
      assert name[..|HeadersPrefix|] == HeadersPrefix;
      assert name[|HeadersPrefix|] == d;
    }
  }

  /**
   * The names the kernel scan considers (installed or not): they mention `linux-image`, and are
   * neither the bare virtual package, nor an architecture meta-package, nor a Lustre kernel.
   */
  predicate IsKernelCandidate(name: string) {
    && name != "linux-image"
    && !IsArchMetaName(name)
    && !Contains(name, "lustre")
    && Contains(name, "linux-image")
  }

  /** A versioned image name such as `linux-image-6.1.0-11-amd64` passes the scan unless it is a Lustre kernel. */
  lemma VersionedImageIsCandidate(v: string)
    requires v != [] && IsDecimalDigit(v[0])
    ensures IsKernelCandidate(ImagePrefix + v) <==> !Contains(ImagePrefix + v, "lustre")
  {
    var name := ImagePrefix + v;
    assert name[..|ImagePrefix|] == ImagePrefix;
    assert name[|ImagePrefix|..] == v;
    assert LeadingLetters(v) == 0;
    assert IsPrefix("linux-image", name) by { assert name[..11] == "linux-image"; }
    assert |name| != |"linux-image"|;
  }
}
