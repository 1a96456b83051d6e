/** Public URLs of uploaded objects: a fixed bucket/region prefix followed by the key. */
module Locator {
  import opened Wrappers

  const BucketName := "automuse-output"
  const Region := "ap-south-1"

  /** `f"https://{bucket_name}.s3.{region}.amazonaws.com/"`. */
  function UrlPrefix(): string {
    "https://" + BucketName + ".s3." + Region + ".amazonaws.com/"
  }

  lemma HostSpelledOut()
    ensures "https://" + BucketName + ".s3." == "https://automuse-output.s3."
  {
  }

  lemma DomainSpelledOut()
    ensures Region + ".amazonaws.com/" == "ap-south-1.amazonaws.com/"
  {
  }

  lemma UrlPrefixSpelledOut()
    ensures UrlPrefix() == "https://automuse-output.s3.ap-south-1.amazonaws.com/"
  {
    HostSpelledOut();
    DomainSpelledOut();
    var host, domain := "https://automuse-output.s3.", "ap-south-1.amazonaws.com/";
    assert UrlPrefix() == host + domain;
  }

  /** The locator returned or printed after an upload. */
  function PublicUrl(key: string): (url: string)
    ensures url == "https://automuse-output.s3.ap-south-1.amazonaws.com/" + key
  {
    UrlPrefixSpelledOut();
    UrlPrefix() + key
  }

  /** Reads the key back out of a public URL, if it has the bucket's prefix. */
  function KeyOfUrl(url: string): Option<string> {
    var prefix := UrlPrefix();
    if |prefix| <= |url| && url[..|prefix|] == prefix then Some(url[|prefix|..]) else None
  }

  /** The key can be recovered from its URL. */
  lemma UrlRoundTrip(key: string)
    ensures KeyOfUrl(PublicUrl(key)) == Some(key)
  {
    var url := PublicUrl(key);
    assert url[..|UrlPrefix()|] == UrlPrefix();
    assert url[|UrlPrefix()|..] == key;
  }

  /** Different keys have different URLs. */
  lemma UrlInjective(k1: string, k2: string)
    ensures PublicUrl(k1) == PublicUrl(k2) ==> k1 == k2
  {
    UrlRoundTrip(k1);
    UrlRoundTrip(k2);
  }
}
