/** `allowed_file`: the upload filter of the web front end. A file name is
    accepted when it has a dot and the text after its last dot, lower-cased,
    is an allowed extension. */
module Upload {
  import opened Text

  /** The allowed extensions, lower-case and without the dot. */
  const AllowedExtensions: set<string> := {"pdf"}

  /** `filename.rsplit('.', 1)[1]`: the text after the last dot. */
  function Extension(f: string): (e: string)
    requires '.' in f
    ensures '.' !in e
    ensures |e| < |f| && f[|f| - |e| - 1] == '.' && f[|f| - |e|..] == e
  {
    if f[|f| - 1] == '.' then []
    else
      assert f[|f| - 1] in f[..|f| - 1] + [f[|f| - 1]];
      assert '.' in f[..|f| - 1] by {
        var i :| 0 <= i < |f| && f[i] == '.';
        assert f[..|f| - 1][i] == '.';
      }
      Extension(f[..|f| - 1]) + [f[|f| - 1]]
  }

  /** `allowed_file(filename)`. */
  predicate AllowedFile(f: string)
  {
    '.' in f && Lower(Extension(f)) in AllowedExtensions
  }

  /** The extension of a name that ends with a dot and a dot-free tail is
      that tail. */
  lemma {:induction false} ExtensionOfTail(p: string, e: string)
    requires '.' !in e
    ensures '.' in p + "." + e
    ensures Extension(p + "." + e) == e
    decreases |e|
  {
    var f := p + "." + e;
    assert f[|p|] == '.';
    if e != [] {
      var init := e[..|e| - 1];
      assert f[..|f| - 1] == p + "." + init;
      ExtensionOfTail(p, init);
      assert e == init + [e[|e| - 1]];
    }
  }

  /** A name is accepted exactly when it ends with a dot followed by three
      characters that lower-case to `pdf`. */
  lemma AllowedFileIff(f: string)
    ensures AllowedFile(f) <==> |f| >= 4 && f[|f| - 4] == '.' && Lower(f[|f| - 3..]) == "pdf"
  {
    if AllowedFile(f) {
      var e := Extension(f);
      assert Lower(e) == "pdf";
      assert |e| == 3;
    }
    if |f| >= 4 && f[|f| - 4] == '.' && Lower(f[|f| - 3..]) == "pdf" {
      var e := f[|f| - 3..];
      NoDotInPdf(e);
      assert f == f[..|f| - 4] + "." + e;
      AcceptedPdf(f[..|f| - 4], e);
    }
  }

  /** Text that lower-cases to `pdf` holds no dot. */
  lemma NoDotInPdf(e: string)
    requires Lower(e) == "pdf"
    ensures '.' !in e
  {
    forall i | 0 <= i < |e|
      ensures e[i] != '.'
    {
      assert Lower(e)[i] == LowerChar(e[i]);
    }
  }

  /** A dot-free extension that lower-cases to `pdf` is accepted after any
      stem. */
  lemma AcceptedPdf(stem: string, ext: string)
    requires '.' !in ext && Lower(ext) == "pdf"
    ensures AllowedFile(stem + "." + ext)
  {
    ExtensionOfTail(stem, ext);
  }

  /** The extension is the text after the LAST dot and is compared without
      regard to letter case. */
  lemma AcceptedExamples()
    ensures AllowedFile("a.exe.pdf") && AllowedFile(".pdf") && AllowedFile("X.PDF")
  {
    AcceptedNested();
    AcceptedBare();
    AcceptedUpper();
  }

  lemma AcceptedNested()
    ensures AllowedFile("a.exe.pdf")
  {
    assert Lower("pdf") == "pdf";
    AcceptedPdf("a.exe", "pdf");
    assert "a.exe" + "." + "pdf" == "a.exe.pdf";
  }

  lemma AcceptedBare()
    ensures AllowedFile(".pdf")
  {
    assert Lower("pdf") == "pdf";
    AcceptedPdf("", "pdf");
    assert "" + "." + "pdf" == ".pdf";
  }

  lemma AcceptedUpper()
    ensures AllowedFile("X.PDF")
  {
    assert Lower("PDF") == "pdf";
    AcceptedPdf("X", "PDF");
    assert "X" + "." + "PDF" == "X.PDF";
  }

  lemma RejectedExamples()
    ensures !AllowedFile("noext") && !AllowedFile("a.pdf.exe") && !AllowedFile("a.pdfx") && !AllowedFile("a.")
  {
    AllowedFileIff("noext");
    AllowedFileIff("a.pdf.exe");
    AllowedFileIff("a.pdfx");
    AllowedFileIff("a.");
    assert Lower("exe")[0] == 'e';
  }
}
