/**
 The curve constant d is not a square modulo p: its power (p - 1) / 2 is -1, and that of
 a square would be 1. The power is computed by squaring and multiplying along the bits
 of the exponent, which are 250 ones and then 0110. The table of the values after each
 one is checked five at a time, each value against the one before it.
 */
module Ed25519NonSquare {
  import opened Modular
  import opened Primes
  import opened Edwards

  const P: pos := 0x7fffffffffffffffffffffffffffffffffffffffffffffffffffffffffffffed
  const D: int := 0x52036cee2b6ffe738cc740797779e89800700a4d4141d8ab75eb4dca135978a3

  /** The exponent (p - 1) / 2. */
  const HALF: nat := 0x3ffffffffffffffffffffffffffffffffffffffffffffffffffffffffffffff6

  /** The number written with k ones in base two. */
  function Ones(k: nat): nat {
    if k == 0 then 0 else 2 * Ones(k - 1) + 1
  }

  /** v is d to the power of k ones. */
  predicate At(k: nat, v: int) {
    Cong(P, Pow(D, Ones(k)), v)
  }

  /** One more one: the square, times d. */
  predicate Follows(v: int, w: int) {
    v * v * D % P == w
  }

  lemma PowSquare(e: nat, v: int)
    requires Cong(P, Pow(D, e), v)
    ensures Cong(P, Pow(D, 2 * e), v * v)
  {
    PowSum(D, e, e);
    CongMul(P, Pow(D, e), v, Pow(D, e), v);
  }

  lemma OneMore(k: nat, v: int, w: int)
    requires At(k, v) && Follows(v, w)
    ensures At(k + 1, w)
  {
    PowSquare(Ones(k), v);
    CongMul(P, Pow(D, 2 * Ones(k)), v * v, D, D);
    Reduce(P, v * v * D);
  }

  lemma FiveMore(k: nat, v0: int, v1: int, v2: int, v3: int, v4: int, v5: int)
    requires At(k, v0) && Follows(v0, v1) && Follows(v1, v2) && Follows(v2, v3) && Follows(v3, v4) && Follows(v4, v5)
    ensures At(k + 5, v5)
  {
    hide At, Follows;
    OneMore(k, v0, v1);
    OneMore(k + 1, v1, v2);
    OneMore(k + 2, v2, v3);
    OneMore(k + 3, v3, v4);
    OneMore(k + 4, v4, v5);
  }

  lemma NoOnes()
    ensures At(0, 1)
  {
  }

  // The table.

  lemma Ones0To25()
    ensures At(25, 0x463e9342444a2b85532a85ca793d528b96a07627ecf9f5eb791a4be681e71f3c)
  {
    hide At;
    NoOnes();
    FiveMore(0, 0x1,
             0x52036cee2b6ffe738cc740797779e89800700a4d4141d8ab75eb4dca135978a3,
             0x4b5504954240b390e31642c6cbf105e5f77fbd3ca7869a8054b69a6b2b05869c,
             0x3d9336f03800c568a6966b5d58e98606b26e6be627ee384c7e511d742693c7ca,
             0x76fac33a26abd084049709cf8498834d6a17b04a9087b85bf54d4b24fc3b549f,
             0x20fd2da2087795b3f59690f2fbaa577c4f90775a564644e4d809aa9c39e80ba0);
    FiveMore(5, 0x20fd2da2087795b3f59690f2fbaa577c4f90775a564644e4d809aa9c39e80ba0,
             0x7be7243e4a353a867fbb1f0273ab8f69da6c05df1a889f157a931fdcfea38e3,
             0x400e4a8d2d3546b8049355e15cd8f327dde88f4a603cc7edc36b920d4643360c,
             0x152aef4a7cbebffa6e33a7f8adccd755cd0a7330b54e6ee6c848c261ac566fc4,
             0xad86cb95cd16bf4ddcd2726b63916271b23495797799beeda03209d3ac597b4,
             0x3d3a1d10838afe128b8057c96c3dfd28633fdc3710a1c9debfe51a4d8ec28b69);
    FiveMore(10, 0x3d3a1d10838afe128b8057c96c3dfd28633fdc3710a1c9debfe51a4d8ec28b69,
             0x923bfc46589d1b8a57fe1bd0cc5bd409339755c2b4605ec7f86c00712a5fdca,
             0x65e6cd6a33f9e4b9ee2a461b617f6dec61f2b5856caa663340063551df1c8afb,
             0x6f4b64f0778bc1045f996f53487b271dd4fbb4bfcdfb7f9c9aceb59a98a56eb0,
             0x36a5b4a6876604692fea042d822e4520309131e6cb08bad5eee9b7ddaddd0ab,
             0x4d1e7dc5aa7e282dc484966e9c079726860b722d206aa761966dd7836408ea4c);
    FiveMore(15, 0x4d1e7dc5aa7e282dc484966e9c079726860b722d206aa761966dd7836408ea4c,
             0x5bc7bf0d5cd26895d2fc8b6e1fd6c8485749910e4ae81c84a59b643d2df6cbc4,
             0x7825eb4c0d60072cbbd37989f22090a5c052601d5ccad22f84ec7268b014ac73,
             0x71a19ae67517916350a52a125079000792935aa48ece8e187f5b3adf6fb7a155,
             0x72ff2f40b2581f249c1c4571e266f5aaf12df7fd6b3e1b41f00f0ea18a73b6dc,
             0x175e633c4c0e1ac9cec491cdbbeac05071969d7d1c79d5138cde801f61f34db2);
    FiveMore(20, 0x175e633c4c0e1ac9cec491cdbbeac05071969d7d1c79d5138cde801f61f34db2,
             0x3691f11979b2124e7cd397f596b155a8d0927bf9e6e15464bdd80bb0e7a59bfe,
             0x3c8ff5f3e26cd91571b33af797d03741233d21827cace9ba12c7d9e9865b18c6,
             0xfeb6512eb6b610c2046f54de36879f8687b156fd1d3513fcdd24bb7dee31f03,
             0x724fc1ec95562f4ab7c11334462f1daaaf2904c670e613d74c07773ccefc0eeb,
             0x463e9342444a2b85532a85ca793d528b96a07627ecf9f5eb791a4be681e71f3c);
  }

  lemma Ones25To50()
    requires At(25, 0x463e9342444a2b85532a85ca793d528b96a07627ecf9f5eb791a4be681e71f3c)
    ensures At(50, 0x7c0dce84e02716f9b12f09da3f99c49976740b80b881d1d2cdf50a5e49a7f204)
  {
    hide At;
    FiveMore(25, 0x463e9342444a2b85532a85ca793d528b96a07627ecf9f5eb791a4be681e71f3c,
             0x32fdcbb893edfcba6f2dee88b207e99ee2e687e8f873f1e41c49dfb77d1b692b,
             0x324bb9aaa7825dd685080df1bbacbc6baf0edd973f165569fa2b0da88a558039,
             0x71f7ef0b4f384c6593ee7f154b778ee352f128ce5c8623ca843e89b5c82a6016,
             0x728d1291b58a223e6ccae138ac82bf045b70d87a7806665002a18e4427262cea,
             0x28ec1b037bfdf72d9028d08543d838f49ecc8c4b0c2cef251e54793fc3a67414);
    FiveMore(30, 0x28ec1b037bfdf72d9028d08543d838f49ecc8c4b0c2cef251e54793fc3a67414,
             0x46b24c8a216cfd9b38d419a509ae675a4f0611a37dc89e0cb75e3868dda139ae,
             0x286f28b52d9f8eb6f80fd53fa4dc3b5d78d9e08f28b46be20f7f77431f629b6b,
             0x27c40c27cb7162fd24d0d0974e9c1cad1beb0cc73590a56ccd5cb70b35a3c631,
             0x4759044afa64d5fb44759f4f0c89514b087512680633c0fdcc89b5b972d7c0f9,
             0xbc5d44d82b3b7b459b76902e4c3f3948acbd56ba62fa5875f646257a41830ec);
    FiveMore(35, 0xbc5d44d82b3b7b459b76902e4c3f3948acbd56ba62fa5875f646257a41830ec,
             0x29b28cfdd3e26621b360bd239c878b0a695a714068aa0a2e1aab0519995ebd19,
             0x6baa277bb571464f845a82543d835566d63ddd8c02dcf41001cce80913896cfe,
             0xc0694aa55b9b39d96d3faea3814bb7822cbf03b94d230c7d6ed39c23416e89b,
             0x7cf07f89a7c9dce6f8691cd3301e51508821343bb65dd0defe80c7e25f8c1717,
             0x96c13d598748a037afa4fe66494b31782b59558ff0b6c80a36b7518e8d1394b);
    FiveMore(40, 0x96c13d598748a037afa4fe66494b31782b59558ff0b6c80a36b7518e8d1394b,
             0xfbdb9a624f37dec459e094279cc201388e3fab681a948e4f0586a0edd0e7cfa,
             0x6fae4b7d27a31469753de472ed8ecd637213d5040b84acb11953ab551c306f8d,
             0xd358e5921a5d0f105a1e5ec69e15e3e44f3ffc33628118109b27b4878c3d26d,
             0x5801314ed27f3d847bbe836e0f799f1f38709cac6da37883ba92033cc3efe94f,
             0x70fb656ed94914cac3feb28f65723f0666b6f175a4ff833d7e6605e094249c66);
    FiveMore(45, 0x70fb656ed94914cac3feb28f65723f0666b6f175a4ff833d7e6605e094249c66,
             0x75df98d6e3a76d798a6a16103fa7d7dfdeffcf088d623cd4f81db6f82c172de8,
             0x110f94885697aa4508e98ebafaaec0938e5bc63d67811f00a167dcf67a4e2ede,
             0x1a27eb874ca2131cfa908a010371fc395a059d8d6d3a5a1a3598cb3dd9b05a73,
             0x106a39df6412a453d3e2518af35fc0f2457a1ebef6411a364018acde044b87da,
             0x7c0dce84e02716f9b12f09da3f99c49976740b80b881d1d2cdf50a5e49a7f204);
  }

  lemma Ones50To75()
    requires At(50, 0x7c0dce84e02716f9b12f09da3f99c49976740b80b881d1d2cdf50a5e49a7f204)
    ensures At(75, 0x6f57348691794c5cab0077e9b3aaf8bc870888707bf4e445773de6251463f126)
  {
    hide At;
    FiveMore(50, 0x7c0dce84e02716f9b12f09da3f99c49976740b80b881d1d2cdf50a5e49a7f204,
             0x71f8e24c062e45cd12131c336117fd245559b4a2904407738997e22ce0b4b0b9,
             0x4b09f959dfc2d7afd6e80d69ec19e67087921ce86082b3c3f83afbcf867a0261,
             0x4bcb3dbe9aa64b3e635863e0be4acb26de802dc38b9d47a22bbdc3e43bf8e325,
             0x353fe1d5214723d56602c3a0c0f1bfdc7e3b20c08ae9f407e407364428a19383,
             0x6a6b90c7cf07bc8f2df3cf1ceecda463174473c83667ba5b8708e3aa608d4a40);
    FiveMore(55, 0x6a6b90c7cf07bc8f2df3cf1ceecda463174473c83667ba5b8708e3aa608d4a40,
             0x2f6f0fdea3432a978c4a9e626d8446d92c0e5e802e003a6c69bd57c2deeaf73d,
             0x4388c1116351d6b8531078ffd9a11d1b9a98796a54afc777c308123d194c765c,
             0x3911b2e6a0ae45ebcc4abda848b8361c53e755001e6f4aed34912e8a03e56a3d,
             0xe4eba4a93b98750c9c7f6e5464963acf20c23dd31b794a4acd2c0695ced7d9e,
             0x41df389abb446a1073168e6c2d642593992840effc51ee3da6c9e5432fbe9481);
    FiveMore(60, 0x41df389abb446a1073168e6c2d642593992840effc51ee3da6c9e5432fbe9481,
             0x5ea41027b4c38cbd62bd1da23bf9fa634fa8f26061145972488ee9d48a6f2a6f,
             0x1e57e449d7e78d8a609a352e669ced59078d467c53900eefb80d2634ac3d5e3f,
             0x5b5f327604a5ffd401c38206985b2a4e28281c9a5a76975e8020c8f33a244fd,
             0x234704ee937a69e2eccb7fb712d3eba248bee6d9ecc829fcef87018473716b4,
             0x6473a5fb53c15b4b619e0124c18743b4168cf456ce91c3a9bfb6852315755dd8);
    FiveMore(65, 0x6473a5fb53c15b4b619e0124c18743b4168cf456ce91c3a9bfb6852315755dd8,
             0x392aba5a8ad1a552870eb6bd8e83e5f558827d551d58365171d17e4b3dba8d3b,
             0xfcc6c3f97fcf58e8a0d78592cb290b802256388c0a82edca39d8ff055a2b66,
             0x70872ad15af5d27774565a6748f10d58aaa55d1f168bd3744f806a5a1eef835a,
             0x6ae58e94190073e6555160c0c6c7089922872552bc593ffb3eb9fcd1e8b9bdf3,
             0x6977d8f3612f8a0793504ddfdbaeaba49690b721574486b867e767dcc8f6a20f);
    FiveMore(70, 0x6977d8f3612f8a0793504ddfdbaeaba49690b721574486b867e767dcc8f6a20f,
             0x313fc431287862faa340190e6e192808c4bd991f55ef092b093970cb6b854efc,
             0x10f19e78d8c717e75cc4d992d2ed8401d064fbc19ea1f36908f546a386d92b72,
             0x331f1003d67eeb0c608a73d729de670cc794ba824081a91ff61fbedb2ff0d5dc,
             0x7f55f03bc6acbffab08c57f8cd1be08c6e97b631e624bd846c2293a6d1691550,
             0x6f57348691794c5cab0077e9b3aaf8bc870888707bf4e445773de6251463f126);
  }

  lemma Ones75To100()
    requires At(75, 0x6f57348691794c5cab0077e9b3aaf8bc870888707bf4e445773de6251463f126)
    ensures At(100, 0x378de976c50b033efc97bfa6c20f97baff498e357d4652553caae50d9ec882e5)
  {
    hide At;
    FiveMore(75, 0x6f57348691794c5cab0077e9b3aaf8bc870888707bf4e445773de6251463f126,
             0x1951144d76567287a5c66f2118c52ab426fc882d41aeb490aa6fc80cdc62c2e0,
             0x1913694b9bff1a0d93bafb12d6384b111112466ef4b79a87738bd38fea9c462c,
             0x61b3b62b21eee813ad7b67ada88b7fb9ce445ece283088f10d7d74ab22e3482b,
             0x28d765c7d477f1fd3ca99e223b272e265eb7975e55f70ee5e31ea5af4d979e02,
             0x1e2a3163662cb7ffc008f270e1c50115bf0161e4b8816aa40f2ba83a3344912e);
    FiveMore(80, 0x1e2a3163662cb7ffc008f270e1c50115bf0161e4b8816aa40f2ba83a3344912e,
             0x625c39f6c40e7356ffb97ab86506b1ce3ca5d07e9002c0b5f82d81e169f49663,
             0x5b85b4fdb784d1de8762bd968560db5a24bda9a14ee37e19cf39a2427d0e42aa,
             0x183037d56a368e133d06e842062daf5ce8feea4137678db26740d9881387a51d,
             0x14f00706dfc1746dc33a5736ace9f0f4bff499ce6e65f792622676379dc5eda7,
             0x96a10ff1ea08cd82f966c9606c133087718366a63ded7fd2dae5ed883ae579e);
    FiveMore(85, 0x96a10ff1ea08cd82f966c9606c133087718366a63ded7fd2dae5ed883ae579e,
             0x5bb9c8bd1153b3c2bb324892b5c37aecd0a6b8ccdba5a6c8769081e68c7e6d7e,
             0x516c77759305013a6b3880438f36ceefffe58d63e044a47237b6c986d447e527,
             0x389538fc3fce2cc0add496f4768e2cacb3c2db6d8f290b937c8fd536d6ab4a69,
             0x73e6b508df52136e75668a5444051523f42eecbe23c5bf35f988c7965d5ea95f,
             0x10c823ca115c509a5a60d50c6dc0498508585d6bdfe0461aa019ac415eb378ea);
    FiveMore(90, 0x10c823ca115c509a5a60d50c6dc0498508585d6bdfe0461aa019ac415eb378ea,
             0x7f53582b48cfa485a0b83b98dc35c602b6fe0a6d7a2325110c2f0baab9d94cc5,
             0x3deee3736ca1e4a9499dc708af738ed76ff69a1b2dbf40be2d0fc99664479404,
             0x4afefb418912b4dd7e0b5337dcf360d13f8127215ba75c09a0606d81771684be,
             0xa1c6544a2e9b674a3c5c5e34cf97a01484dad972e6e3072bc7e14d2326dc1b3,
             0xd03a94402c48f8089dce478a27185674f421768937965f658aa2ed631a95b94);
    FiveMore(95, 0xd03a94402c48f8089dce478a27185674f421768937965f658aa2ed631a95b94,
             0x2c98e4ea1a485724f34046da06dca2f77ad3b194fb1857f7a5339809ace75fc7,
             0x75bf078c97bf5c591af62742d8770588b29d439755d28037f90c4fe79dd35030,
             0x2ac6dd818fac629183f98273b6105aef4107d805240a43fb3183639aef85cd23,
             0x6f1953bce33eb0ccc7ba3699180b14fb2c95b4f6e31223fb79c54a0f839a4d4c,
             0x378de976c50b033efc97bfa6c20f97baff498e357d4652553caae50d9ec882e5);
  }

  lemma Ones100To125()
    requires At(100, 0x378de976c50b033efc97bfa6c20f97baff498e357d4652553caae50d9ec882e5)
    ensures At(125, 0x1ca7d5b6a0740bd931a55ecf2cc94c5097796de6c1ea6400db5f327e2008da29)
  {
    hide At;
    FiveMore(100, 0x378de976c50b033efc97bfa6c20f97baff498e357d4652553caae50d9ec882e5,
             0x1624fdec5019bd7f84255ed584ece449a18135646e3eaf6487e3e297733e1b7b,
             0x202eb95e33f5c2a28c9b782a15ac20591bf1fcd7af609b6590db5c1c79cdc19f,
             0x68b82929f8918ee2cd1714f8a83cbb660d5e9d40afce2693c29a2c6026934b02,
             0xd298b5f84b9c752706bf3750d06ef1f14eb2f4fd0ce04b0a2e2a021ed37f08d,
             0x14ee74187e4e53388f930ee97f1e5263844956bdbfcc126f1db951ad2991b9fb);
    FiveMore(105, 0x14ee74187e4e53388f930ee97f1e5263844956bdbfcc126f1db951ad2991b9fb,
             0x507cec16687abed3fa7c9a713015758e9b50d70a27cd3c87e6a1f97dc4ae7a0c,
             0x70bc8396bf1f4e9014ddc39397e23d546e80c891907e3e363b043b570f1d9b5,
             0x360951397f7aceb95a0b896d6580e5132c22862b241b1b9060adc8cd33b025a7,
             0xd25762e19ef67b8e313f977df9facc93ff0fe60a0d04e34411f24e7b7ae8d97,
             0x2524366773df9cfcdc38527a1ed37c6aaea156ec9d9f4c21696b0f45326916f3);
    FiveMore(110, 0x2524366773df9cfcdc38527a1ed37c6aaea156ec9d9f4c21696b0f45326916f3,
             0x5469fccf70560dfbae5e2885b1094e7d363105e3dcfaaa3de80202ba4fbc9c5c,
             0x1e5a5e065df3e68df55ef651442c6d695203cdec7ad700aafa2c6a1dc0bbc1bc,
             0x1236ab3cce5c811f380a5425c36b59ded0959a6546e0b2ba6dad0cde3f122715,
             0x25dfeab5106d1c93970b009e2e297b5cad977acfbb78db5d85a60ac7a58a5790,
             0xbaf67edb1c04a6d73003bc767a78b7488e78b1a4c3a6b6f71fc08d50b63f130);
    FiveMore(115, 0xbaf67edb1c04a6d73003bc767a78b7488e78b1a4c3a6b6f71fc08d50b63f130,
             0x6283df7318fb54537acb82fa7fc2f162e1f0ced7fde3ce8e01140b470047e960,
             0x4de2a497de5788d1eac20afc2311e6b717a773704bd857b1a03d991928e22587,
             0x12310707ee3d4ec72a80c18a523679180018e6a78486ee43068b7683b1545591,
             0x2b12234051252a1b0a1c8278b153eae44e79fcaaac0ae21a00472b268c2737c7,
             0x5cde52caf822b58c919a671dffee664d8b775da7cbd85333b2334e0951682f61);
    FiveMore(120, 0x5cde52caf822b58c919a671dffee664d8b775da7cbd85333b2334e0951682f61,
             0x19e1ab974e4ef11e14bb1752febb134b0e06a9739457cf4f1d6259244e1e58d0,
             0x6a10ecf7278a4c52f4ce152b216d5e8d3a016ff566745135e2f3d5e8d9d449e0,
             0x7f381435f217ed1536c14395f1eb0f0216f7acb6865e9989567c04742cb175c9,
             0x48b6c5c9239a185f13c201392924c8c883838e712cceadf162ebe574614fdc5a,
             0x1ca7d5b6a0740bd931a55ecf2cc94c5097796de6c1ea6400db5f327e2008da29);
  }

  lemma Ones125To150()
    requires At(125, 0x1ca7d5b6a0740bd931a55ecf2cc94c5097796de6c1ea6400db5f327e2008da29)
    ensures At(150, 0x7bbb3ccebc793792bb7fd7851fa91eedea695f5f0e6c95837137c05911dff7a2)
  {
    hide At;
    FiveMore(125, 0x1ca7d5b6a0740bd931a55ecf2cc94c5097796de6c1ea6400db5f327e2008da29,
             0x7bcf37b18b4e4e105a1bbca78c3483cef9f0529a325dfdd7bd6b2f58f4256a77,
             0xb42ab4b0303b415b7db1a78c48c4b8a947ccc4a2ab2f8d0e20acb5837403d54,
             0x1e33ff5d45567bc05d9d55d823c69327eff2ff894421b213e1eac3de323a4694,
             0x650062e642d613ddc8696b665325b07c884bb510e941473c722582f467a9b5d5,
             0x54644e65b289124f4e2823a4a4ab6698f553a105bcc0160923569d41d336c07e);
    FiveMore(130, 0x54644e65b289124f4e2823a4a4ab6698f553a105bcc0160923569d41d336c07e,
             0x66151ea5864e25b6f22a0e42ec9505079b737894ce48db9c462d0d8db1e67d04,
             0x3579af6e45ca0de040920225fab27ff5e927dedc65ba30ae9ef106e90f1f499a,
             0x1d36815295c840a8133e92d322cacda4c359f3072c1dbc0bf263190d6d23b6da,
             0x76c54a4f5e7f3e6d6339a788b81ebea03406aaddeac6eef7f4943f336d58f3f4,
             0x1dd929b26e377ba24640ca84a9f26df6bac475c3a067974e4814a98f17c1cfb4);
    FiveMore(135, 0x1dd929b26e377ba24640ca84a9f26df6bac475c3a067974e4814a98f17c1cfb4,
             0x6a7809bf3ee79d709145f6095399d9503be7cda2cf500f24a7d68df02973fcc3,
             0x5b65f57f30b428af7ebdce5c8f8c1560590c12e3c8c09ecaf9edb9962a92397b,
             0x5ddaef5c1ca8fc09573d22bd3ed4cde94871dcc431a30cee1154e5ec1f37aec,
             0x630aebd9cc570155ef1f517a5b841912586a478722e7d291146bfcf514cfe946,
             0x4153125d54312990b3f53bff2c19f97ca362b48a449dd969f83cf75b2a8f48d9);
    FiveMore(140, 0x4153125d54312990b3f53bff2c19f97ca362b48a449dd969f83cf75b2a8f48d9,
             0x3f3763d03a52a1bacfb91bc9c00e05bba94cadea98aecb2a1c5ce10c20cd46a1,
             0x2d27cb225d756282667dc415888c41aecf9cc8119c1ad13218fdf99856344d71,
             0x48b381bf5e3def4aa52ebcedf2550f82778d87cf249e818738d4ee759f05472,
             0x731650f9f7d76ad448fd24a4d0989871dc75e72f38f5448b441c157d552900ec,
             0x1718192411e3bbabc153d3c5cf5e2b875a643a7292521a3b1a8149349630c12f);
    FiveMore(145, 0x1718192411e3bbabc153d3c5cf5e2b875a643a7292521a3b1a8149349630c12f,
             0x7870a295e97818fa28cd563f8d399b86d50bf2044793ee4075358a004b37d83,
             0x558ddcd7ffe7ebfd0e34bda45863d8c3e0241aaf01761241fa854e2495065c00,
             0x16380a3ab2f74678c8c255f1bcc49c6b5eb3f925000cbc4719fd27ee5ab876d2,
             0x388a45786bdeb14bb55f99abdc2eba6bf174be0e46e557ca60396917c1a4ec0c,
             0x7bbb3ccebc793792bb7fd7851fa91eedea695f5f0e6c95837137c05911dff7a2);
  }

  lemma Ones150To175()
    requires At(150, 0x7bbb3ccebc793792bb7fd7851fa91eedea695f5f0e6c95837137c05911dff7a2)
    ensures At(175, 0x8b92c44f4648a6f364cc87cce06694830808824e3845a32949b333e33281eec)
  {
    hide At;
    FiveMore(150, 0x7bbb3ccebc793792bb7fd7851fa91eedea695f5f0e6c95837137c05911dff7a2,
             0x70fa2a755bfb9dca4fe8bac3654b2fb0876f9188a7aa2a0236e55a287dd13379,
             0x413381a62f762e9216fbde6408bfb40b3e0af633f93beb322ff2bb68eb7978a1,
             0xed40f5a2882d5069262febcb1b5a87a4297eeac3872bdf9d24aeaa19d0323e7,
             0x27880a4708093d795541c094dd14aad7619357ca01c3a9eb1896c8a02b7429f7,
             0x6620163c4a84151b148ff19478c0498500d8ceeadf8f66b878788a4d5189e7e1);
    FiveMore(155, 0x6620163c4a84151b148ff19478c0498500d8ceeadf8f66b878788a4d5189e7e1,
             0x4cd525d5707b5e2b10f7ea32d0d7d5971b21029e83b4bda6e79a2a0fe70f7cd0,
             0x5d537789d87b674843917d97a46e9fd1a307a9968b114c2f4c3cf27ef5ba1def,
             0x2a0d09af95fe69ad43f2ed653a4aea597d1308687e3d1baae4a3e1b7e4b503e8,
             0x7a8027612e72d39abd636a4dd3b5f0ed3ecfbbbcca2b486b2dbb972a2dc05a33,
             0x34d63e02af59807294833528a501b6f44fe2d8fbafa0d113847052d6bcbab417);
    FiveMore(160, 0x34d63e02af59807294833528a501b6f44fe2d8fbafa0d113847052d6bcbab417,
             0x47f3ec1b38705d5a6d99c8aeb1e9a31454995e06037cdba5a01949527b47bf74,
             0x6bc8ad45001b541431cc7d80ee353c4b8a20db5405a6255149ff03f435bb2b2f,
             0x7406935e63525fd2858604e6ce36469f3a25b7f1d5dad3d286477da23461a890,
             0xf5e13b8fa76fd58234a9318f4fff3b1fb8aad1187d34b0060854e2c2f1d2f99,
             0x20882948a5297732f8d9ea6ba409a994042e00dd595b0010ca5467d71ea6d34d);
    FiveMore(165, 0x20882948a5297732f8d9ea6ba409a994042e00dd595b0010ca5467d71ea6d34d,
             0x5c319aa314773d7857b9fa8ab800fcbfaed6d092cc71c195b6015d5722809fd,
             0x7eeec26a145d87fa643a92d1fde9a08299743d724420ca3f265ae655995c3651,
             0x7cff2b176e48838e03f02a341e3a35fff3b93d9f4e16d0ea94fa67cf9e0ef11b,
             0x19079fdd13db4520a49e7e0ae64ba3210fef803f30835047e81f82dac1cb2a98,
             0x56689496fb28ead7397581078ae05c00a2787def9ed62647194ccdb225bcc6d3);
    FiveMore(170, 0x56689496fb28ead7397581078ae05c00a2787def9ed62647194ccdb225bcc6d3,
             0x583e91f3797f6f6f40d78960a6f5500afb6a4d19327820c0f36952621a144868,
             0x69b45fb0e556e197ebf81edbe3dc9460cbd322153e6fe2986be637a7e0127d4b,
             0x770ae9fa5b7c62721f6be69ddaacbd6ced86e70c82fce9570f21a50b0bfa6b1c,
             0x4dc226f1ebfa4ecc5150c765d15276838206904ef4661d25adb353e50b4ea4a6,
             0x8b92c44f4648a6f364cc87cce06694830808824e3845a32949b333e33281eec);
  }

  lemma Ones175To200()
    requires At(175, 0x8b92c44f4648a6f364cc87cce06694830808824e3845a32949b333e33281eec)
    ensures At(200, 0x7d8055634c94f31cd53254034328202d8b93c91f589fc0f364c2205ba8819eb4)
  {
    hide At;
    FiveMore(175, 0x8b92c44f4648a6f364cc87cce06694830808824e3845a32949b333e33281eec,
             0x4a705e894a61b862c7c3e1cb65871a77fb2b15a55864a970902d93e35026608a,
             0x1e6b8aeb6f98e339ac703025f5b4db82bc7051fb1c1ec44c8e5d048f9608ee68,
             0x4e491c6c36cd6fe793ce0e5aacb214274bb6f3ed5eacdac3c757f87637db4ca,
             0x6c96b7a8baba36cfc299b0c9fd9466c06dc196af3d6f640fd0c1fa8c3d9d454f,
             0x5783fb7a86fd4837304d5279e36fef1b1ffce472b49b0b4c9959850ac5323970);
    FiveMore(180, 0x5783fb7a86fd4837304d5279e36fef1b1ffce472b49b0b4c9959850ac5323970,
             0x47cf7a213b7613462866723a90135dd5c6e7732564ac005eac9af94618eb2e04,
             0x1c5891ce239708fe5586f3f7f631a4eebce1dec5b3128fe36140dd049fc7858a,
             0x189ebe575863956257c5f4d48f1856190509d19fccf0199de24d450098bf6242,
             0x84b0c7df73ef5e8bf0be367e097c2b9ade23c8d0993277203a206f7904c9606,
             0x6e43ee1434f387c56b357fae23ec9bb1f1464d09b371a79dabd2df44fdcb6d4e);
    FiveMore(185, 0x6e43ee1434f387c56b357fae23ec9bb1f1464d09b371a79dabd2df44fdcb6d4e,
             0x1b7cfddf2a3c2c3cf3e8f6722bfceee7c0f43c12de7fa7c2e101e03172cf7f20,
             0x3e26687b6600d9b778ad8111af4da9c98a09196a537015871570558902749502,
             0x429d9d4a443ef032dc12800a8f0d1717c8483839e32c96273b258d11c03455d5,
             0x1b3072e92c67c11f4fef7408d971c3a5637f42f10d3ba7edf8f6b0f7a98c3d23,
             0x7804d35430c1ba17e4363d938f95ed2e87a2c06f425066b8c99e21b1d12920c8);
    FiveMore(190, 0x7804d35430c1ba17e4363d938f95ed2e87a2c06f425066b8c99e21b1d12920c8,
             0x5e5478128730ab4acd50a488c45b907d21aa7ba0eceb7a682f2434039bd93ca7,
             0x52c5c12c3c6f98ff4eef5d55758307e19d845e8f0be08ccc34c6abed092dce61,
             0x2fa9193f7ccbb1c86b6bae9bd09c0c41753b31d3e620083f1f799f5e0621719d,
             0x2a97e4875fdfe4e5d619f28dbf3e750f886bc981d251fa5b37f3bb9d929a464,
             0x63c1a5c53feaf055388d98f7c9583d9f1562d952776888aef2724e5bd2419eb2);
    FiveMore(195, 0x63c1a5c53feaf055388d98f7c9583d9f1562d952776888aef2724e5bd2419eb2,
             0x52d1fa060b4ea1342578efaf2526fd0d66335a01f188036ec391bf05ab349bc2,
             0x48acb9712fde3b2d4ab676f72fb4f46e08314333a5ebf07c7cb6d7883dadf535,
             0x601cb1a19fcb59cadf335b2262a071b8e0fc92db7d3f586b97a798951641478a,
             0x2ebfe18581d565d26ad92f1aaac4390776e95c7dcf5dde9365193461ce3137d4,
             0x7d8055634c94f31cd53254034328202d8b93c91f589fc0f364c2205ba8819eb4);
  }

  lemma Ones200To225()
    requires At(200, 0x7d8055634c94f31cd53254034328202d8b93c91f589fc0f364c2205ba8819eb4)
    ensures At(225, 0x3647156690086f2d200b6663dee9e92118b90940682d1690a218e6ec10d616cf)
  {
    hide At;
    FiveMore(200, 0x7d8055634c94f31cd53254034328202d8b93c91f589fc0f364c2205ba8819eb4,
             0x5ecec8c5687ba634a464bb5f44535429b6c9cbe252d476108f957aac92844b74,
             0x6c5f44933a0a944a27c5575da21b8d9a06b330c486c1177a13ea94c8970190ee,
             0x7c9406524484524b6b296df82d95ffcc4fab7a7ce3974f2a42878b62eae914ab,
             0x3e62804705ab5d8663f41a64db99f551ad53ae0e9dd7639d59c5b7419839931c,
             0x28b46ece8b8a531ed7d64b93d697d929a1fe55411d764eb4648e708ec629842f);
    FiveMore(205, 0x28b46ece8b8a531ed7d64b93d697d929a1fe55411d764eb4648e708ec629842f,
             0x7ae8122358bf6705b147eb4a9fa94c8d37c9fe8227367ffd3bf7ca8c3f0ad34d,
             0x2001cad27ea6ba05835275e42d9d129d7b73de22e95ed06b82540c6ccb1b0cc,
             0x10f6641293c4ca92180a0e0ce0434c463d5ccdca0480816ec90a5ec6db73fcce,
             0x128f74fa6f06563bf93db4c3d3dc52b9a1ac85e064a27d5d8919de994eda584b,
             0x68003bbe94ca154a854b93f19053ca90662c2b2ba15f5bffe219eecf534d65ca);
    FiveMore(210, 0x68003bbe94ca154a854b93f19053ca90662c2b2ba15f5bffe219eecf534d65ca,
             0x12db6e925a86e44d09f8231e3181d6998118a6f3b40ac3d6e7ee75a1b1cafdb1,
             0x28eae3f774b2d934feff81fa86f439f39ac38a16c4fe97456de1a9c90a992fe4,
             0x7fa451f724afde80f05d969cc156051d9daae0bbd32020140e78cb920b7cc1e6,
             0x2f5c15c7c15e8d08651353284425847daaf9b657ed0aa62735b6641a681c8541,
             0x4f47a626383be0848ff5eaceeaffb7058b11454f5f10e30a51c01582b1bf0808);
    FiveMore(215, 0x4f47a626383be0848ff5eaceeaffb7058b11454f5f10e30a51c01582b1bf0808,
             0x4ed123314ea10164e6cfed464c2ccdb6720ad7bd7d46545e4c8cd7b9a3798890,
             0x6665978a2e461973adbe2980cc42f2368dfbdf3558441825100e521da8d667bf,
             0x4c803d9d821a9a8946ddc3b52d1621ed4e6631918495a2f1a3e29120ebbfba6c,
             0xdd18ad3217d36af93063676ce083d243bb785b5b5de2f5ee556302d8634867d,
             0x1052958524ab62418f6d265b75f8854d446d0cbe8a4d0f56103338b3b326eceb);
    FiveMore(220, 0x1052958524ab62418f6d265b75f8854d446d0cbe8a4d0f56103338b3b326eceb,
             0x5160ead33318031604d41decdffc048f33cfeb5955bb55a4d11351881c533f40,
             0x422e7188ded0dc2e3e38216be61874048cd598dbc454f3a50a19d8013ab4cb0c,
             0x50e562cce407d6f4f001e8ff55580d2588411e35027c00963a56b8959c37e609,
             0x45b2f23ae252441ccad655829814a872d3f5ff0b31f52616441641e7b2000c2c,
             0x3647156690086f2d200b6663dee9e92118b90940682d1690a218e6ec10d616cf);
  }

  lemma Ones225To250()
    requires At(225, 0x3647156690086f2d200b6663dee9e92118b90940682d1690a218e6ec10d616cf)
    ensures At(250, 0x62660d54bbf29a5b5f521b940222644731bae82f02412dce3aaaf85d3aefa2ba)
  {
    hide At;
    FiveMore(225, 0x3647156690086f2d200b6663dee9e92118b90940682d1690a218e6ec10d616cf,
             0x237e3b1e5888609b1d1b3165171be5cd64fd7bdadc42ccbc02ae0e8c1f737ddb,
             0x7c18fb9b36720adf72bd94d7f3669eaa94550008897318faf658261f5301dcf5,
             0x5935c48feec10dd4501999ae53b8e8ac75562bbfb9ecd5f0ec8198c504a9d341,
             0x44f7eb9737e814f12e3b777ef873357cc04dedca343479d2f68a59354b010330,
             0x579b4bf9e8fced8ca038d75778442134ddf6f567379176432aca0d3d7e3668c1);
    FiveMore(230, 0x579b4bf9e8fced8ca038d75778442134ddf6f567379176432aca0d3d7e3668c1,
             0x5a32db304a414261cd864da581dbc04ef62267e89997f25118abbb451566735,
             0x64f2b104ed0c73b5ebcf1fd9c32730813b73e9ba7cd46f1a1a045a6e91a0f7b,
             0x2997680f94bc93f7167ebcd73e805c4a4adf6450dc782eb01dc8ff2301c0ffb6,
             0x45c41ab963a313f7cad206694302353a2a6cf65d8285243d04ba15a9fd95ba89,
             0x55f7560c0426456140d2eda3305ab581c419942d035f767c557d7bc6e607e5e1);
    FiveMore(235, 0x55f7560c0426456140d2eda3305ab581c419942d035f767c557d7bc6e607e5e1,
             0x615b45977159e115bde44b5db629aed937f67640ae7bf59ba04c8d81e3accbfc,
             0x5a92f0e632dc29a743b8258fbf9a1f4b12d98008c3c4cb6adf8f5ffe55654fc2,
             0x702c0a553518052e86107413dd07dab72cda849186038d383a9fd3bfaaf06d0f,
             0x2f2ba5aa11bac7ee214acff9e550d26459a5a940bbb3bc127684a66b27261e19,
             0x40a97c93f5d76fcec2c2b0e602a6a4b965ef0cd31742bf5a2e791b394584c270);
    FiveMore(240, 0x40a97c93f5d76fcec2c2b0e602a6a4b965ef0cd31742bf5a2e791b394584c270,
             0x5d6769b930d780ea8f52967e13e0b206b0a34034e60884942da7bc5bfcb69565,
             0x30f425edad28d0293285b7ee0847138c8c5e8f33c4c4d9be8ba1429010002b0a,
             0x10539b436f460a7beca7461bd17b6e67b9308920539a3b7162883eb6a80ce72d,
             0x69272260f7a154d389328881283cb0f8f83bf245f8edf3ff807ffe6d5ffe51,
             0x597aabf4807c14769061de537dc5554521c0b993cc30993aff619869f2e6109c);
    FiveMore(245, 0x597aabf4807c14769061de537dc5554521c0b993cc30993aff619869f2e6109c,
             0x72536aa3104a85daeebcdd27388a1d460dd10e09d678cfbbe680b257f2ac9d49,
             0x2452a7d8d7f6337aff25976e0fcccfd9d4a1e4a78edb949dd1730ff7d277b95a,
             0x458e8ccf4b8fef9c5f630c2583852b4d0891857c2573b54492022780244e11d1,
             0x192f5e911f0efafb30417ddd2a565707b9f7f2de3fbdfcb2dcf2305cc1e4af25,
             0x62660d54bbf29a5b5f521b940222644731bae82f02412dce3aaaf85d3aefa2ba);
  }

  lemma AllOnes()
    ensures At(250, 0x62660d54bbf29a5b5f521b940222644731bae82f02412dce3aaaf85d3aefa2ba)
  {
    hide At;
    Ones0To25();
    Ones25To50();
    Ones50To75();
    Ones75To100();
    Ones100To125();
    Ones125To150();
    Ones150To175();
    Ones175To200();
    Ones200To225();
    Ones225To250();
  }

  // The exponent.

  lemma {:induction false} OnesArePower(k: nat)
    ensures Ones(k) + 1 == Pow(2, k)
  {
    if k != 0 {
      OnesArePower(k - 1);
    }
  }

  lemma TwoTo(a: nat, b: nat, x: int, y: int, z: int)
    requires Pow(2, a) == x && Pow(2, b) == y && x * y == z
    ensures Pow(2, a + b) == z
  {
    PowSum(2, a, b);
  }

  lemma SmallPower()
    ensures Pow(2, 5) == 32
  {
  }

  lemma HalfInBits()
    ensures 16 * Ones(250) + 6 == HALF && 2 * HALF == P - 1
  {
    hide Ones, Pow;
    OnesArePower(250);
    SmallPower();
    TwoTo(5, 5, 32, 32, 0x400);
    TwoTo(10, 10, 0x400, 0x400, 0x10_0000);
    TwoTo(20, 5, 0x10_0000, 32, 0x200_0000);
    TwoTo(25, 25, 0x200_0000, 0x200_0000, 0x4000000000000);
    TwoTo(50, 50, 0x4000000000000, 0x4000000000000, 0x10000000000000000000000000);
    TwoTo(100, 100, 0x10000000000000000000000000, 0x10000000000000000000000000,
      0x100000000000000000000000000000000000000000000000000);
    TwoTo(200, 50, 0x100000000000000000000000000000000000000000000000000, 0x4000000000000,
      0x400000000000000000000000000000000000000000000000000000000000000);
  }

  /** d to the power (p - 1) / 2 is -1. */
  lemma HalfPower()
    ensures Cong(P, Pow(D, HALF), 0 - 1)
  {
    hide Pow, Ones, IsPrime;
    AllOnes();
    HalfInBits();
    var e := Ones(250);
    var v: int := 0x62660d54bbf29a5b5f521b940222644731bae82f02412dce3aaaf85d3aefa2ba;
    var v1: int, v2: int, v3: int :=
      0x31e235b69712dd82356b54beb93ea377fc7022ac7e7f03ed2e28e04facfb4b41,
      0x7f3b45b75f5372a69a3ca4fe26b5549dbcf306dfae9283fa09c5381b3a95daad,
      0x2b8324804fc1df0b2b4d00993dfbd7a72f431806ad2fe478c4ee1b274a0ea0b0;
    LastBits(e, v, v1, v2, v3);
  }

  lemma Bit(e: nat, v: int, w: int, one: bool)
    requires Cong(P, Pow(D, e), v) && Cong(P, if one then v * v * D else v * v, w)
    ensures Cong(P, Pow(D, if one then 2 * e + 1 else 2 * e), w)
  {
    PowSquare(e, v);
    if one {
      CongMul(P, Pow(D, 2 * e), v * v, D, D);
    }
  }

  lemma LastBits(e: nat, v: int, v1: int, v2: int, v3: int)
    requires Cong(P, Pow(D, e), v) && Cong(P, v * v, v1) && Cong(P, v1 * v1 * D, v2) && Cong(P, v2 * v2 * D, v3) && Cong(P, v3 * v3, 0 - 1)
    ensures Cong(P, Pow(D, 16 * e + 6), 0 - 1)
  {
    hide Pow, Cong;
    Bit(e, v, v1, false);
    Bit(2 * e, v1, v2, true);
    Bit(4 * e + 1, v2, v3, true);
    Bit(8 * e + 3, v3, 0 - 1, false);
  }

  /** Euler's criterion, in the direction needed: the power of a square would be 1. */
  lemma SquareHalfPower(x: int)
    requires IsPrime(P) && NonZero(P, x)
    ensures Cong(P, Pow(x * x, HALF), 1)
  {
    HalfInBits();
    PowOfProduct(x, x, HALF);
    PowSum(x, HALF, HALF);
    Fermat(P, x);
  }

  lemma DIsNotSquare()
    requires IsPrime(P)
    ensures NonSquare(P, D)
  {
    hide Pow, IsPrime;
    forall x: int ensures !IsRoot(P, x, D) {
      if IsRoot(P, x, D) {
        RootIsNonZero(x);
        SquareHalfPower(x);
        PowCong(P, x * x, D, HALF);
        HalfPower();
      }
    }
  }

  lemma RootIsNonZero(x: int)
    requires IsRoot(P, x, D)
    ensures NonZero(P, x)
  {
    if !NonZero(P, x) {
      SmallRemainder(P, 0);
      CongMul(P, x, 0, x, 0);
    }
  }
}
