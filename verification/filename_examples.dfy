/** Worked instances of the file-name derivation. */
module FileNameExamples {
  import opened FileNames

  /** A host name `www.<name>.<rest>` names the file after `name`. */
  lemma {:induction false} WwwHostName(url: string, name: string, rest: string)
    requires url != [] && '.' !in name
    ensures FileName(url, Www + name + "." + rest) == name + Suffix
  {
    var h := Www + name + "." + rest;
    assert OccursAt(h, Www, 0) by { assert h[..4] == Www; }
    assert RemoveFirst(h, Www) == name + "." + rest by {
      assert h[4..] == name + "." + rest;
    }
    FirstLabelOfDotted(name, rest);
  }

  /** A leading `www.` is dropped, and the name keeps the first label only:
      a tab on `www.example.com` saves `example-pdf-r.pdf`. */
  lemma WwwExampleCom(url: string)
    requires url != []
    ensures FileName(url, "www.example.com") == "example-pdf-r.pdf"
  {
    WwwHostName(url, "example", "com");
    ExampleHost();
  }

  lemma ExampleHost()
    ensures Www + "example" + "." + "com" == "www.example.com"
    ensures "example" + Suffix == "example-pdf-r.pdf"
  {
  }

  /** The first `www.` is removed even in the middle of the host name. */
  lemma InnerWwwRemoved()
    ensures RemoveFirst("mail.www.host", Www) == "mail.host"
  {
    var h := "mail.www.host";
    assert OccursAt(h, Www, 5);
    forall j | 0 <= j < 5 ensures !OccursAt(h, Www, j) {
      assert h[j..j + 4][0] == h[j] != 'w';
    }
    assert h[..5] + h[9..] == "mail.host";
  }
}
